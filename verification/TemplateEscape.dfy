/** Escaping double curly braces for the template engine, and rendering the result. */
module TemplateEscape {

  datatype Result<+T> = Ok(value: T) | Error

  // ---------------------------------------------------------------------------
  // Replacing
  // ---------------------------------------------------------------------------

  /** `pattern` occurs in `s` at position `k`. */
  predicate MatchAt(s: string, k: nat, pattern: string) {
    k + |pattern| <= |s| && forall i :: 0 <= i < |pattern| ==> s[k + i] == pattern[i]
  }

  predicate StartsWith(s: string, prefix: string) {
    MatchAt(s, 0, prefix)
  }

  /** Replaces all occurrences of `old_`, left to right and without overlap. */
  function ReplaceAll(s: string, old_: string, new_: string): string
    requires old_ != ""
    decreases |s|
  {
    if s == "" then ""
    else if StartsWith(s, old_) then new_ + ReplaceAll(s[|old_|..], old_, new_)
    else [s[0]] + ReplaceAll(s[1..], old_, new_)
  }

  // ---------------------------------------------------------------------------
  // Escaping
  // ---------------------------------------------------------------------------

  const LEFT := "{{"
  const RIGHT := "}}"
  const HALF := "{{`{{`"          // a left delimiter opened as a raw string, not yet closed
  const ESCAPED_LEFT := "{{`{{`}}"
  const ESCAPED_RIGHT := "{{`}}`}}"

  /** Replaces each left delimiter by its escaped form and each right one likewise. The left ones are
      closed only in the last step, so that the second step does not touch their closing braces. */
  function UseGoTemplatesForDoubleCurlyBraces(src: string): string {
    var leftHalves := ReplaceAll(src, LEFT, HALF);
    var rightDone := ReplaceAll(leftHalves, RIGHT, ESCAPED_RIGHT);
    ReplaceAll(rightDone, HALF, ESCAPED_LEFT)
  }

  // ---------------------------------------------------------------------------
  // Rendering
  // ---------------------------------------------------------------------------

  const TRIPLE := "{{{"
  const REPAIRED := "{{\"{\"}}{{"

  predicate IsNameChar(c: char) {
    'a' <= c <= 'z' || 'A' <= c <= 'Z' || '0' <= c <= '9' || c == '_'
  }

  predicate IsSpace(c: char) {
    c == ' ' || c == '\t' || c == '\n' || c == '\r'
  }

  function SkipSpaces(s: string): (r: string)
    ensures |r| <= |s|
  {
    if s != "" && IsSpace(s[0]) then SkipSpaces(s[1..]) else s
  }

  datatype Scanned = Scanned(text: string, rest: string)

  /** The text up to the character `end`, which is consumed. */
  function ScanTo(s: string, end: char): (r: Result<Scanned>)
    ensures r.Ok? ==> |r.value.rest| < |s|
  {
    if s == "" then Error
    else if s[0] == end then Ok(Scanned("", s[1..]))
    else match ScanTo(s[1..], end)
      case Error => Error
      case Ok(r) => Ok(Scanned([s[0]] + r.text, r.rest))
  }

  function ScanName(s: string): (r: Scanned)
    ensures |r.rest| <= |s|
  {
    if s != "" && IsNameChar(s[0]) then
      var r := ScanName(s[1..]);
      Scanned([s[0]] + r.text, r.rest)
    else Scanned("", s)
  }

  /** What an action prints: a raw string, a plain quoted string, or a property. A missing property is an error. */
  function Operand(s: string, properties: map<string, string>): (r: Result<Scanned>)
    ensures r.Ok? ==> |r.value.rest| < |s|
  {
    if s == "" then Error
    else if s[0] == '`' then ScanTo(s[1..], '`')
    else if s[0] == '\"' then
      match ScanTo(s[1..], '\"')
      case Error => Error
      case Ok(r) => if '\\' in r.text || '\n' in r.text then Error else Ok(r)
    else if s[0] == '.' then
      var r := ScanName(s[1..]);
      if r.text in properties then Ok(Scanned(properties[r.text], r.rest)) else Error
    else Error
  }

  /** Executes a template of plain text and such actions. */
  function Execute(s: string, properties: map<string, string>): Result<string>
    decreases |s|
  {
    if s == "" then Ok("")
    else if StartsWith(s, LEFT) then
      match Operand(SkipSpaces(s[2..]), properties)
      case Error => Error
      case Ok(operand) =>
        var after := SkipSpaces(operand.rest);
        if !StartsWith(after, RIGHT) then Error
        else match Execute(after[2..], properties)
          case Error => Error
          case Ok(tail) => Ok(operand.text + tail)
    else match Execute(s[1..], properties)
      case Error => Error
      case Ok(tail) => Ok([s[0]] + tail)
  }

  /** Renders a template after separating a plain brace from a following delimiter. */
  function Render(content: string, properties: map<string, string>): Result<string> {
    Execute(ReplaceAll(content, TRIPLE, REPAIRED), properties)
  }

  // ---------------------------------------------------------------------------
  // Reading the stages from left to right
  // ---------------------------------------------------------------------------

  /** The source with its delimiters written as `left` and `right`. */
  function Stage(s: string, left: string, right: string): string
    decreases |s|
  {
    if s == "" then ""
    else if StartsWith(s, LEFT) then left + Stage(s[2..], left, right)
    else if StartsWith(s, RIGHT) then right + Stage(s[2..], left, right)
    else [s[0]] + Stage(s[1..], left, right)
  }

  /** A prefix in which no match starts is copied. */
  lemma {:induction false} CopyUnmatched(p: string, t: string, old_: string, new_: string)
    requires old_ != ""
    requires forall k :: 0 <= k < |p| ==> !MatchAt(p + t, k, old_)
    ensures ReplaceAll(p + t, old_, new_) == p + ReplaceAll(t, old_, new_)
    decreases |p|
  {
    if p == "" {
      assert p + t == t;
    } else {
      assert !MatchAt(p + t, 0, old_);
      assert (p + t)[1..] == p[1..] + t;
      forall k | 0 <= k < |p| - 1 ensures !MatchAt(p[1..] + t, k, old_) {
        assert !MatchAt(p + t, k + 1, old_);
        if MatchAt(p[1..] + t, k, old_) {
          forall i | 0 <= i < |old_| ensures (p + t)[k + 1 + i] == old_[i] {
            assert (p[1..] + t)[k + i] == old_[i];
          }
          assert false;
        }
      }
      CopyUnmatched(p[1..], t, old_, new_);
      assert p == [p[0]] + p[1..];
    }
  }

  lemma ReplaceMatch(t: string, old_: string, new_: string)
    requires old_ != ""
    ensures ReplaceAll(old_ + t, old_, new_) == new_ + ReplaceAll(t, old_, new_)
  {
    assert (old_ + t)[|old_|..] == t;
  }

  /** What a stage can start with. */
  lemma StageHead(s: string, left: string, right: string)
    requires left != "" && right != ""
    ensures var t := Stage(s, left, right);
      if s == "" then t == ""
      else t != "" && t[0] == if StartsWith(s, LEFT) then left[0] else if StartsWith(s, RIGHT) then right[0] else s[0]
  {
  }

  /** First step: every left delimiter, found greedily, becomes the half-open form. */
  lemma {:induction false} FirstStep(s: string)
    ensures ReplaceAll(s, LEFT, HALF) == Stage(s, HALF, RIGHT)
    decreases |s|
  {
    if s == "" {
    } else if StartsWith(s, LEFT) {
      FirstStep(s[2..]);
    } else if StartsWith(s, RIGHT) {
      FirstStep(s[2..]);
      var t := s[2..];
      assert s == RIGHT + t;
      forall k | 0 <= k < 2 ensures !MatchAt(RIGHT + t, k, LEFT) {
        assert (RIGHT + t)[k + 0] != LEFT[0];
      }
      CopyUnmatched(RIGHT, t, LEFT, HALF);
    } else {
      FirstStep(s[1..]);
    }
  }

  /** Second step: the right delimiters of the source, and only those, are escaped. */
  lemma {:induction false} SecondStep(s: string)
    ensures ReplaceAll(Stage(s, HALF, RIGHT), RIGHT, ESCAPED_RIGHT) == Stage(s, HALF, ESCAPED_RIGHT)
    decreases |s|
  {
    if s == "" {
    } else if StartsWith(s, LEFT) {
      SecondStep(s[2..]);
      var t := Stage(s[2..], HALF, RIGHT);
      forall k | 0 <= k < |HALF| ensures !MatchAt(HALF + t, k, RIGHT) {
        assert (HALF + t)[k + 0] != RIGHT[0];
      }
      CopyUnmatched(HALF, t, RIGHT, ESCAPED_RIGHT);
    } else if StartsWith(s, RIGHT) {
      SecondStep(s[2..]);
      ReplaceMatch(Stage(s[2..], HALF, RIGHT), RIGHT, ESCAPED_RIGHT);
    } else {
      SecondStep(s[1..]);
      var c, t := [s[0]], Stage(s[1..], HALF, RIGHT);
      StageHead(s[1..], HALF, RIGHT);
      PlainIsNoPair(s);
      MatchTwo(c + t, RIGHT);
      CopyUnmatched(c, t, RIGHT, ESCAPED_RIGHT);
    }
  }

  lemma MatchHead(u: string, pattern: string, i: nat)
    requires i < |pattern|
    ensures MatchAt(u, 0, pattern) ==> i < |u| && u[i] == pattern[i]
  {
    if MatchAt(u, 0, pattern) {
      assert u[0 + i] == pattern[i];
    }
  }

  lemma MatchTwo(u: string, pattern: string)
    requires |pattern| == 2
    ensures MatchAt(u, 0, pattern) <==> |u| >= 2 && u[0] == pattern[0] && u[1] == pattern[1]
  {
    if |u| >= 2 && u[0] == pattern[0] && u[1] == pattern[1] {
      forall i | 0 <= i < 2 ensures u[0 + i] == pattern[i] {
        assert i == 0 || i == 1;
      }
    }
    MatchHead(u, pattern, 0);
    MatchHead(u, pattern, 1);
  }

  /** A brace that starts no delimiter is not followed by its like. */
  lemma PlainIsNoPair(s: string)
    requires s != "" && !StartsWith(s, LEFT) && !StartsWith(s, RIGHT)
    ensures |s| > 1 && s[0] == '{' ==> s[1] != '{' && !StartsWith(s[1..], LEFT)
    ensures |s| > 1 && s[0] == '}' ==> s[1] != '}' && !StartsWith(s[1..], RIGHT)
  {
    MatchTwo(s, LEFT);
    MatchTwo(s, RIGHT);
    MatchTwo(s[1..], LEFT);
    MatchTwo(s[1..], RIGHT);
  }

  /** Third step: exactly the half-open forms are closed. */
  lemma {:induction false} ThirdStep(s: string)
    ensures ReplaceAll(Stage(s, HALF, ESCAPED_RIGHT), HALF, ESCAPED_LEFT) == Stage(s, ESCAPED_LEFT, ESCAPED_RIGHT)
    decreases |s|
  {
    if s == "" {
    } else if StartsWith(s, LEFT) {
      ThirdStep(s[2..]);
      ReplaceMatch(Stage(s[2..], HALF, ESCAPED_RIGHT), HALF, ESCAPED_LEFT);
    } else if StartsWith(s, RIGHT) {
      ThirdStep(s[2..]);
      var t := Stage(s[2..], HALF, ESCAPED_RIGHT);
      forall k | 0 <= k < |ESCAPED_RIGHT| ensures !MatchAt(ESCAPED_RIGHT + t, k, HALF) {
        NoHalfInRight(t, k);
      }
      CopyUnmatched(ESCAPED_RIGHT, t, HALF, ESCAPED_LEFT);
    } else {
      ThirdStep(s[1..]);
      var c, t := [s[0]], Stage(s[1..], HALF, ESCAPED_RIGHT);
      NoHalfAtPlain(s);
      CopyUnmatched(c, t, HALF, ESCAPED_LEFT);
    }
  }

  lemma NoHalfInRight(t: string, k: nat)
    requires k < |ESCAPED_RIGHT|
    ensures !MatchAt(ESCAPED_RIGHT + t, k, HALF)
  {
    var u := ESCAPED_RIGHT + t;
    assert forall i :: 0 <= i < |ESCAPED_RIGHT| ==> u[i] == ESCAPED_RIGHT[i];
    // the character of the escaped right delimiter that the pattern does not have
    var i := if k == 0 then 3 else if k == 1 then 1 else 0;
    assert ESCAPED_RIGHT[k + i] != HALF[i];
    assert u[k + i] != HALF[i];
  }

  lemma NoHalfAtPlain(s: string)
    requires s != "" && !StartsWith(s, LEFT) && !StartsWith(s, RIGHT)
    ensures !MatchAt([s[0]] + Stage(s[1..], HALF, ESCAPED_RIGHT), 0, HALF)
  {
    var t := Stage(s[1..], HALF, ESCAPED_RIGHT);
    var u := [s[0]] + t;
    PlainIsNoPair(s);
    StageHead(s[1..], HALF, ESCAPED_RIGHT);
    if s[0] == '{' && StartsWith(s[1..], RIGHT) {
      assert u[2] == ESCAPED_RIGHT[1];
      assert u[0 + 2] != HALF[2];
    } else if s[0] == '{' {
      assert |u| > 1 ==> u[0 + 1] != HALF[1];
    } else {
      assert u[0 + 0] != HALF[0];
    }
  }

  /** The three replacements escape each delimiter of the source, found greedily from the left, on its own. */
  lemma EscapeIsStage(s: string)
    ensures UseGoTemplatesForDoubleCurlyBraces(s) == Stage(s, ESCAPED_LEFT, ESCAPED_RIGHT)
  {
    FirstStep(s);
    SecondStep(s);
    ThirdStep(s);
  }

  // ---------------------------------------------------------------------------
  // The repair of three opening braces
  // ---------------------------------------------------------------------------

  /** The escaped form with every plain brace before an escaped delimiter separated from it. */
  function Separated(s: string): string
    decreases |s|
  {
    if s == "" then ""
    else if StartsWith(s, LEFT) then ESCAPED_LEFT + Separated(s[2..])
    else if StartsWith(s, RIGHT) then ESCAPED_RIGHT + Separated(s[2..])
    else if BraceBeforeRight(s) then REPAIRED + ESCAPED_RIGHT[2..] + Separated(s[3..])
    else [s[0]] + Separated(s[1..])
  }

  predicate BraceBeforeRight(s: string) {
    s != "" && s[0] == '{' && StartsWith(s[1..], RIGHT)
  }

  lemma {:induction false} RepairSeparates(s: string)
    ensures ReplaceAll(Stage(s, ESCAPED_LEFT, ESCAPED_RIGHT), TRIPLE, REPAIRED) == Separated(s)
    decreases |s|
  {
    if s == "" {
    } else if StartsWith(s, LEFT) {
      RepairSeparates(s[2..]);
      CopyWithoutTriple(ESCAPED_LEFT, Stage(s[2..], ESCAPED_LEFT, ESCAPED_RIGHT));
    } else if StartsWith(s, RIGHT) {
      RepairSeparates(s[2..]);
      CopyWithoutTriple(ESCAPED_RIGHT, Stage(s[2..], ESCAPED_LEFT, ESCAPED_RIGHT));
    } else if BraceBeforeRight(s) {
      RepairSeparates(s[3..]);
      RepairBrace(s);
    } else {
      RepairSeparates(s[1..]);
      RepairPlain(s);
    }
  }

  lemma RepairBrace(s: string)
    requires BraceBeforeRight(s) && !StartsWith(s, LEFT) && !StartsWith(s, RIGHT)
    ensures ReplaceAll([s[0]] + Stage(s[1..], ESCAPED_LEFT, ESCAPED_RIGHT), TRIPLE, REPAIRED)
         == REPAIRED + ESCAPED_RIGHT[2..] + ReplaceAll(Stage(s[3..], ESCAPED_LEFT, ESCAPED_RIGHT), TRIPLE, REPAIRED)
  {
    PlainIsNoPair(s);
    assert s[1..][2..] == s[3..];
    var t := Stage(s[3..], ESCAPED_LEFT, ESCAPED_RIGHT);
    assert [s[0]] + (ESCAPED_RIGHT + t) == TRIPLE + (ESCAPED_RIGHT[2..] + t);
    ReplaceMatch(ESCAPED_RIGHT[2..] + t, TRIPLE, REPAIRED);
    CopyWithoutTriple(ESCAPED_RIGHT[2..], t);
    var r := ReplaceAll(t, TRIPLE, REPAIRED);
    assert REPAIRED + (ESCAPED_RIGHT[2..] + r) == REPAIRED + ESCAPED_RIGHT[2..] + r;
  }

  lemma RepairPlain(s: string)
    requires s != "" && !StartsWith(s, LEFT) && !StartsWith(s, RIGHT) && !BraceBeforeRight(s)
    ensures ReplaceAll([s[0]] + Stage(s[1..], ESCAPED_LEFT, ESCAPED_RIGHT), TRIPLE, REPAIRED)
         == [s[0]] + ReplaceAll(Stage(s[1..], ESCAPED_LEFT, ESCAPED_RIGHT), TRIPLE, REPAIRED)
  {
    var c, t := [s[0]], Stage(s[1..], ESCAPED_LEFT, ESCAPED_RIGHT);
    PlainIsNoPair(s);
    StageHead(s[1..], ESCAPED_LEFT, ESCAPED_RIGHT);
    assert (c + t)[0] == s[0] && (|t| > 0 ==> (c + t)[1] == t[0]);
    MatchHead(c + t, TRIPLE, 0);
    MatchHead(c + t, TRIPLE, 1);
    CopyUnmatched(c, t, TRIPLE, REPAIRED);
  }

  /** No position of an escaped delimiter starts three opening braces. */
  lemma CopyWithoutTriple(p: string, t: string)
    requires p == ESCAPED_LEFT || p == ESCAPED_RIGHT || p == ESCAPED_RIGHT[2..]
    ensures ReplaceAll(p + t, TRIPLE, REPAIRED) == p + ReplaceAll(t, TRIPLE, REPAIRED)
  {
    forall k | 0 <= k < |p| ensures !MatchAt(p + t, k, TRIPLE) {
      assert forall i :: 0 <= i < |p| ==> (p + t)[i] == p[i];
      var i := if p[k] != '{' then 0 else if p[k + 1] != '{' then 1 else 2;
      assert p[k + i] != TRIPLE[i];
      assert (p + t)[k + i] != TRIPLE[i];
    }
    CopyUnmatched(p, t, TRIPLE, REPAIRED);
  }

  // ---------------------------------------------------------------------------
  // Executing
  // ---------------------------------------------------------------------------

  /** An action that prints a raw string. */
  lemma {:induction false} ScanFinds(text: string, end: char, rest: string)
    requires end !in text
    ensures ScanTo(text + [end] + rest, end) == Ok(Scanned(text, rest))
    decreases |text|
  {
    var s := text + [end] + rest;
    if text == "" {
      assert s[1..] == rest;
    } else {
      assert s[1..] == text[1..] + [end] + rest;
      ScanFinds(text[1..], end, rest);
      assert [text[0]] + text[1..] == text;
    }
  }

  lemma ExecuteRaw(text: string, t: string, properties: map<string, string>)
    requires '`' !in text
    ensures Execute("{{`" + text + "`}}" + t, properties) ==
      match Execute(t, properties) case Error => Error case Ok(tail) => Ok(text + tail)
  {
    var s := "{{`" + text + "`}}" + t;
    assert StartsWith(s, LEFT);
    assert s[2..] == "`" + text + "`}}" + t;
    assert s[2..][1..] == text + ['`'] + ("}}" + t);
    ScanFinds(text, '`', "}}" + t);
    assert ("}}" + t)[2..] == t;
  }

  lemma ExecuteBrace(t: string, properties: map<string, string>)
    ensures Execute("{{\"{\"}}" + t, properties) ==
      match Execute(t, properties) case Error => Error case Ok(tail) => Ok("{" + tail)
  {
    var s := "{{\"{\"}}" + t;
    assert StartsWith(s, LEFT);
    assert s[2..][1..] == "{" + ['\"'] + ("}}" + t);
    ScanFinds("{", '\"', "}}" + t);
    assert ("}}" + t)[2..] == t;
  }

  lemma ExecuteEscaped(t: string, properties: map<string, string>)
    ensures Execute(ESCAPED_LEFT + t, properties) ==
      match Execute(t, properties) case Error => Error case Ok(tail) => Ok(LEFT + tail)
    ensures Execute(ESCAPED_RIGHT + t, properties) ==
      match Execute(t, properties) case Error => Error case Ok(tail) => Ok(RIGHT + tail)
  {
    assert ESCAPED_LEFT + t == "{{`" + LEFT + "`}}" + t;
    ExecuteRaw(LEFT, t, properties);
    assert ESCAPED_RIGHT + t == "{{`" + RIGHT + "`}}" + t;
    ExecuteRaw(RIGHT, t, properties);
  }

  lemma {:induction false} ExecuteSeparated(s: string, properties: map<string, string>)
    ensures Execute(Separated(s), properties) == Ok(s)
    decreases |s|
  {
    if s == "" {
    } else if StartsWith(s, LEFT) || StartsWith(s, RIGHT) {
      ExecuteSeparated(s[2..], properties);
      ExecuteEscaped(Separated(s[2..]), properties);
      MatchTwo(s, LEFT);
      MatchTwo(s, RIGHT);
      assert s[..2] == if StartsWith(s, LEFT) then LEFT else RIGHT;
      assert s == s[..2] + s[2..];
    } else if BraceBeforeRight(s) {
      ExecuteSeparated(s[3..], properties);
      ExecuteRepaired(s, properties);
    } else {
      ExecuteSeparated(s[1..], properties);
      ExecutePlain(s, properties);
      assert s == [s[0]] + s[1..];
    }
  }

  lemma ExecuteRepaired(s: string, properties: map<string, string>)
    requires BraceBeforeRight(s) && Execute(Separated(s[3..]), properties) == Ok(s[3..])
    ensures Execute(REPAIRED + ESCAPED_RIGHT[2..] + Separated(s[3..]), properties) == Ok(s)
  {
    var t := Separated(s[3..]);
    assert REPAIRED + ESCAPED_RIGHT[2..] + t == "{{\"{\"}}" + (ESCAPED_RIGHT + t);
    ExecuteBrace(ESCAPED_RIGHT + t, properties);
    ExecuteEscaped(t, properties);
    MatchTwo(s[1..], RIGHT);
    assert s == "{" + (RIGHT + s[3..]);
  }

  lemma ExecutePlain(s: string, properties: map<string, string>)
    requires s != "" && !StartsWith(s, LEFT) && !StartsWith(s, RIGHT) && !BraceBeforeRight(s)
    ensures Execute([s[0]] + Separated(s[1..]), properties) ==
      match Execute(Separated(s[1..]), properties) case Error => Error case Ok(tail) => Ok([s[0]] + tail)
  {
    var t := Separated(s[1..]);
    var u := [s[0]] + t;
    PlainIsNoPair(s);
    MatchTwo(u, LEFT);
    assert u[1..] == t;
    if s[0] == '{' && t != "" {
      assert t[0] == s[1];
    }
  }

  /** Rendering the escaped form of any text gives back that text, whatever the properties are. */
  lemma RenderUndoesEscape(s: string, properties: map<string, string>)
    ensures Render(UseGoTemplatesForDoubleCurlyBraces(s), properties) == Ok(s)
  {
    EscapeIsStage(s);
    RepairSeparates(s);
    ExecuteSeparated(s, properties);
  }

  // ---------------------------------------------------------------------------
  // Properties
  // ---------------------------------------------------------------------------

  predicate AllSpaces(s: string) {
    forall i :: 0 <= i < |s| ==> IsSpace(s[i])
  }

  predicate IsName(s: string) {
    forall i :: 0 <= i < |s| ==> IsNameChar(s[i])
  }

  /** An action that prints a property, with spaces inside its delimiters. */
  function PropertyAction(before: string, name: string, after: string): string {
    "{{" + before + "." + name + after + "}}"
  }

  lemma {:induction false} SkipsSpaces(spaces: string, rest: string)
    requires AllSpaces(spaces) && rest != "" && !IsSpace(rest[0])
    ensures SkipSpaces(spaces + rest) == rest
    decreases |spaces|
  {
    if spaces == "" {
      assert spaces + rest == rest;
    } else {
      assert (spaces + rest)[1..] == spaces[1..] + rest;
      SkipsSpaces(spaces[1..], rest);
    }
  }

  lemma {:induction false} ScansName(name: string, rest: string)
    requires IsName(name) && rest != "" && !IsNameChar(rest[0])
    ensures ScanName(name + rest) == Scanned(name, rest)
    decreases |name|
  {
    if name == "" {
      assert name + rest == rest;
    } else {
      assert (name + rest)[1..] == name[1..] + rest;
      ScansName(name[1..], rest);
      assert [name[0]] + name[1..] == name;
    }
  }

  /** What is between the delimiters of a property action, up to `rest`. */
  lemma ScansProperty(name: string, rest: string, properties: map<string, string>)
    requires IsName(name) && rest != "" && !IsNameChar(rest[0])
    ensures Operand("." + name + rest, properties) ==
      if name in properties then Ok(Scanned(properties[name], rest)) else Error
  {
    assert ("." + name + rest)[1..] == name + rest;
    ScansName(name, rest);
  }

  /** A property is printed as it is, and one that is missing is an error. */
  lemma ExecuteProperty(before: string, name: string, after: string, t: string, properties: map<string, string>)
    requires AllSpaces(before) && IsName(name) && AllSpaces(after)
    ensures Execute(PropertyAction(before, name, after) + t, properties) ==
      if name !in properties then Error
      else match Execute(t, properties) case Error => Error case Ok(tail) => Ok(properties[name] + tail)
  {
    var closing := "}}" + t;
    var inside := "." + name + (after + closing);
    assert (after + closing)[0] == if after == "" then '}' else after[0];
    ScansProperty(name, after + closing, properties);
    SkipsSpaces(before, inside);
    SkipsSpaces(after, closing);
    assert closing[2..] == t;
    ActionStarts(before, name, after, t);
    ExecuteAction(before + inside, inside, properties);
  }

  lemma ActionStarts(before: string, name: string, after: string, t: string)
    ensures PropertyAction(before, name, after) + t == "{{" + (before + ("." + name + (after + ("}}" + t))))
  {
  }

  /** An action is its operand, followed by the right delimiter and the rest. */
  lemma ExecuteAction(s: string, inside: string, properties: map<string, string>)
    requires SkipSpaces(s) == inside
    ensures Execute("{{" + s, properties) ==
      match Operand(inside, properties)
      case Error => Error
      case Ok(operand) =>
        var after := SkipSpaces(operand.rest);
        if !StartsWith(after, RIGHT) then Error
        else match Execute(after[2..], properties)
          case Error => Error
          case Ok(tail) => Ok(operand.text + tail)
  {
    assert ("{{" + s)[2..] == s && StartsWith("{{" + s, LEFT);
  }

  lemma ActionWithoutTriple(before: string, name: string, after: string, t: string)
    requires AllSpaces(before) && IsName(name) && AllSpaces(after)
    ensures ReplaceAll(PropertyAction(before, name, after) + t, TRIPLE, REPAIRED)
         == PropertyAction(before, name, after) + ReplaceAll(t, TRIPLE, REPAIRED)
  {
    var p := PropertyAction(before, name, after);
    forall k | 0 <= k < |p| ensures !MatchAt(p + t, k, TRIPLE) {
      BraceOnlyInFront(before, name, after);
      assert TRIPLE[1] == TRIPLE[2] == TRIPLE[0] == '{';
      if k == 0 {
        assert (p + t)[k + 2] == p[2] != TRIPLE[2];
      } else if k == 1 {
        assert (p + t)[k + 1] == p[2] != TRIPLE[1];
      } else {
        assert (p + t)[k + 0] == p[k] != TRIPLE[0];
      }
    }
    CopyUnmatched(p, t, TRIPLE, REPAIRED);
  }

  lemma BraceOnlyInFront(before: string, name: string, after: string)
    requires AllSpaces(before) && IsName(name) && AllSpaces(after)
    ensures var p := PropertyAction(before, name, after);
      |p| > 2 && forall k :: 2 <= k < |p| ==> p[k] != '{'
  {
    var p := PropertyAction(before, name, after);
    var a, b := |before|, |before| + |name|;
    forall k | 2 <= k < |p| ensures p[k] != '{' {
      if k < 2 + a {
        assert p[k] == before[k - 2];
      } else if k == 2 + a {
        assert p[k] == '.';
      } else if k < 3 + b {
        assert p[k] == name[k - 3 - a];
      } else if k < 3 + b + |after| {
        assert p[k] == after[k - 3 - b];
      } else {
        assert p[k] == '}';
      }
    }
  }

  /** Rendering a property action in front of an escaped text prints the value of the property as it is, even
      when it contains delimiters, and then the text; it fails exactly when there is no such property. */
  lemma RenderPrintsProperty(before: string, name: string, after: string, s: string, properties: map<string, string>)
    requires AllSpaces(before) && IsName(name) && AllSpaces(after)
    ensures Render(PropertyAction(before, name, after) + UseGoTemplatesForDoubleCurlyBraces(s), properties) ==
      if name in properties then Ok(properties[name] + s) else Error
  {
    EscapeIsStage(s);
    RepairSeparates(s);
    ActionWithoutTriple(before, name, after, UseGoTemplatesForDoubleCurlyBraces(s));
    ExecuteProperty(before, name, after, Separated(s), properties);
    ExecuteSeparated(s, properties);
  }

  // ---------------------------------------------------------------------------
  // When the repair is needed
  // ---------------------------------------------------------------------------

  /** Reading delimiters greedily, some plain opening brace directly precedes a right delimiter. */
  predicate NeedsRepair(s: string)
    decreases |s|
  {
    if s == "" then false
    else if StartsWith(s, LEFT) || StartsWith(s, RIGHT) then NeedsRepair(s[2..])
    else BraceBeforeRight(s) || NeedsRepair(s[1..])
  }

  /** Without the repair the escaped form executes to the text exactly when no plain opening brace
      directly precedes a right delimiter; otherwise execution fails. */
  lemma {:induction false} RepairIsNeededIff(s: string, properties: map<string, string>)
    ensures Execute(UseGoTemplatesForDoubleCurlyBraces(s), properties) == if NeedsRepair(s) then Error else Ok(s)
  {
    EscapeIsStage(s);
    ExecuteStage(s, properties);
  }

  lemma {:induction false} ExecuteStage(s: string, properties: map<string, string>)
    ensures Execute(Stage(s, ESCAPED_LEFT, ESCAPED_RIGHT), properties) == if NeedsRepair(s) then Error else Ok(s)
    decreases |s|
  {
    if s == "" {
    } else if StartsWith(s, LEFT) || StartsWith(s, RIGHT) {
      ExecuteStage(s[2..], properties);
      ExecuteEscaped(Stage(s[2..], ESCAPED_LEFT, ESCAPED_RIGHT), properties);
      MatchTwo(s, LEFT);
      MatchTwo(s, RIGHT);
      assert s[..2] == if StartsWith(s, LEFT) then LEFT else RIGHT;
      assert s == s[..2] + s[2..];
    } else {
      ExecuteStage(s[1..], properties);
      assert s == [s[0]] + s[1..];
      if BraceBeforeRight(s) {
        var t := Stage(s[1..], ESCAPED_LEFT, ESCAPED_RIGHT);
        MatchTwo(s[1..], LEFT);
        MatchTwo(s[1..], RIGHT);
        assert t == ESCAPED_RIGHT + Stage(s[1..][2..], ESCAPED_LEFT, ESCAPED_RIGHT);
        ExecuteThreeBraces(t, properties);
      } else {
        ExecutePlainStage(s, properties);
      }
    }
  }

  /** A brace in front of an action is taken for the start of one. */
  lemma ExecuteThreeBraces(t: string, properties: map<string, string>)
    requires |t| > 1 && t[0] == t[1] == '{'
    ensures Execute(['{'] + t, properties) == Error
  {
    assert ['{'] + t == "{{" + t[1..];
    ExecuteAction(t[1..], t[1..], properties);
  }

  lemma ExecutePlainStage(s: string, properties: map<string, string>)
    requires s != "" && !StartsWith(s, LEFT) && !StartsWith(s, RIGHT) && !BraceBeforeRight(s)
    ensures
      var t := Stage(s[1..], ESCAPED_LEFT, ESCAPED_RIGHT);
      Execute([s[0]] + t, properties) ==
      match Execute(t, properties) case Error => Error case Ok(tail) => Ok([s[0]] + tail)
  {
    var t := Stage(s[1..], ESCAPED_LEFT, ESCAPED_RIGHT);
    var u := [s[0]] + t;
    PlainIsNoPair(s);
    MatchTwo(u, LEFT);
    StageHead(s[1..], ESCAPED_LEFT, ESCAPED_RIGHT);
    assert u[1..] == t;
  }
}
