/** Markup patterns that more than one of the tools looks for. */
module AsciiDoc {
  import opened Text

  /** The marker line that opens a short description. */
  const RoleAbstract: string := "[role=\"_abstract\"]"

  /** The pattern `^=+\s+.+$` (multi-line mode) tried at `p`: a run of `=`,
      at least one whitespace character, then the title text up to the end
      of its line.  Returns where the match ends.  The whitespace run may
      cross line breaks; when only whitespace follows the `=` run, it gives
      characters back until `.+` can take one that is not a newline. */
  function TitleAt(s: string, p: nat): (r: Option<nat>)
    ensures r.Some? ==> p < r.value <= |s|
    ensures r.Some? ==> s[p] == '=' && (r.value == |s| || s[r.value] == '\n')
  {
    if p >= |s| || s[p] != '=' then None
    else
      var a := SkipWhile(s, p, IsEquals);
      var b := SkipSpaces(s, a);
      if b == a then None
      else if b < |s| then Some(LineEnd(s, b))
      else match LastWhere(s, a + 1, |s|, NotNewline)
        case None => None
        case Some(k) => Some(LineEnd(s, k))
  }

  /** A title line written out plainly: `=` signs, a space, and text on the
      same line, is matched up to the end of that line. */
  lemma TitleLine(s: string, p: nat, n: nat)
    requires p + n + 2 <= |s| && n >= 1
    requires forall i :: p <= i < p + n ==> s[i] == '='
    requires s[p + n] == ' ' && !IsSpace(s[p + n + 1])
    ensures TitleAt(s, p) == Some(LineEnd(s, p + n + 1))
  {
    var a := SkipWhile(s, p, IsEquals);
    assert a == p + n;
    var b := SkipSpaces(s, a);
    assert b == p + n + 1;
  }
}
