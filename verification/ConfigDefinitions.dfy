/** Persisted config definitions, shared by the writer and the loader. */
module ConfigDefinitions {
  import opened Entities

  /** A serialized parameter; equality stands for deep equality of what would be written to the file. */
  type Parameter = string

  /** An absent name or skip is nil in the source, an absent template the empty string. */
  datatype Definition = Definition(name: Option<Parameter>, parameters: map<string, Parameter>, template: string,
                                   skip: Option<bool>)

  const EMPTY := Definition(None, map[], "", None)

  /** A definition for one environment, or for one group. */
  datatype Variant = Variant(definition: Definition, group: string, environment: string)

  datatype Override = Override(key: string, definition: Definition)

  datatype TopLevel = TopLevel(config: Definition, groupOverrides: seq<Override>, environmentOverrides: seq<Override>)

  /** What a missing skip means. */
  function Effective(skip: Option<bool>): bool {
    skip.Some? && skip.value
  }

  predicate Same(a: Definition, b: Definition) {
    && a.name == b.name
    && a.parameters == b.parameters
    && a.template == b.template
    && Effective(a.skip) == Effective(b.skip)
  }
}
