/** Small definitions shared by the other modules. */
module Prelude {

  /** A value that may be absent: a NULL column, an optional payload field, a failed lookup. */
  datatype Option<+T> = None | Some(value: T)

  /** Lets a member be picked from a non-empty set of integers. */
  lemma HasMember(s: set<int>)
    ensures s != {} ==> exists x :: x in s
  {
    assert (forall x: int :: x !in s) ==> s == {};
  }

  /** Lets a member be picked from a non-empty set of strings. */
  lemma HasText(s: set<string>)
    ensures s != {} ==> exists x :: x in s
  {
  }

  // ---------- String.prototype.trim ----------

  /** White space and line terminators of ECMA-262, sections 12.2 and 12.3. */
  predicate White(c: char) {
    var n := c as int;
    || 0x9 <= n <= 0xD || n in {0x20, 0xA0, 0x1680, 0x2028, 0x2029, 0x202F, 0x205F, 0x3000, 0xFEFF}
    || 0x2000 <= n <= 0x200A
  }

  predicate Blank(s: string) {
    forall i | 0 <= i < |s| :: White(s[i])
  }

  function TrimStart(s: string): string {
    if s != [] && White(s[0]) then TrimStart(s[1..]) else s
  }

  function TrimEnd(s: string): string {
    if s != [] && White(s[|s| - 1]) then TrimEnd(s[..|s| - 1]) else s
  }

  function Trim(s: string): string {
    TrimEnd(TrimStart(s))
  }

  /** Trimming takes white space away at both ends, all of it, and nothing else. */
  lemma {:induction false} TrimTakesWhiteEnds(s: string) returns (before: string, after: string)
    ensures s == before + Trim(s) + after && Blank(before) && Blank(after)
    ensures Trim(s) != "" ==> !White(Trim(s)[0]) && !White(Trim(s)[|Trim(s)| - 1])
  {
    before := WhiteStart(s);
    after := WhiteEnd(TrimStart(s));
    if Trim(s) != "" {
      assert TrimStart(s)[0] == Trim(s)[0];
    }
  }

  lemma {:induction false} WhiteStart(s: string) returns (before: string)
    ensures s == before + TrimStart(s) && Blank(before)
    ensures TrimStart(s) != "" ==> !White(TrimStart(s)[0])
  {
    before := "";
    if s != [] && White(s[0]) {
      var rest := WhiteStart(s[1..]);
      before := [s[0]] + rest;
    }
  }

  lemma {:induction false} WhiteEnd(s: string) returns (after: string)
    ensures s == TrimEnd(s) + after && Blank(after)
    ensures TrimEnd(s) != "" ==> !White(TrimEnd(s)[|TrimEnd(s)| - 1])
  {
    after := "";
    if s != [] && White(s[|s| - 1]) {
      var rest := WhiteEnd(s[..|s| - 1]);
      after := rest + [s[|s| - 1]];
    }
  }
}
