/** The sidebar preview of a journal entry: line breaks become spaces, the
    result is trimmed, and anything longer than thirty characters is cut to
    thirty characters followed by an ellipsis. */
module Preview {
  import opened Text

  const Limit: nat := 30
  const Ellipsis: string := "..."

  /** The entry's content with line feeds turned into spaces and surrounding
      white space removed. */
  function Normalized(content: string): string {
    Trim(Replace(content, '\n', ' '), WhitespacesAndNewlines)
  }

  /** Cuts normalized text to the preview length. */
  function Truncate(p: string): string {
    if p == [] then [] else if |p| > Limit then p[..Limit] + Ellipsis else p
  }

  function Preview(content: string): string {
    Truncate(Normalized(content))
  }

  lemma NormalizedShape(content: string)
    ensures var p := Normalized(content);
      '\n' !in p && (p != [] ==> !IsSpaceOrNewline(p[0]) && !IsSpaceOrNewline(p[|p| - 1]))
  {
  }

  lemma TruncateShape(p: string)
    requires '\n' !in p && (p != [] ==> !IsSpaceOrNewline(p[0]) && !IsSpaceOrNewline(p[|p| - 1]))
    ensures var r := Truncate(p);
      '\n' !in r
      && (r != [] ==> !IsSpaceOrNewline(r[0]) && !IsSpaceOrNewline(r[|r| - 1]))
      && (|p| <= Limit ==> r == p)
      && (|p| > Limit ==> |r| == Limit + |Ellipsis| && r[..Limit] == p[..Limit] && r[Limit..] == Ellipsis)
  {
    if |p| > Limit {
      var r := p[..Limit] + Ellipsis;
      assert r[..Limit] == p[..Limit] && r[Limit..] == Ellipsis;
      assert forall c :: c in r ==> c in p || c == '.';
      assert r[0] == p[0] && r[|r| - 1] == '.';
    }
  }

  /** A preview never holds a line feed, never starts or ends with white
      space, and is either the whole normalized content, when that has at
      most thirty characters, or else its first thirty characters followed
      by "...". */
  lemma PreviewShape(content: string)
    ensures var p, r := Normalized(content), Preview(content);
      '\n' !in r
      && (r != [] ==> !IsSpaceOrNewline(r[0]) && !IsSpaceOrNewline(r[|r| - 1]))
      && (|p| <= Limit ==> r == p)
      && (|p| > Limit ==> |r| == Limit + |Ellipsis| && r[..Limit] == p[..Limit] && r[Limit..] == Ellipsis)
  {
    NormalizedShape(content);
    TruncateShape(Normalized(content));
  }

  /** Computing the preview of a preview gives the same preview: the
      truncated text is itself thirty characters plus an ellipsis. */
  lemma {:induction false} PreviewIdempotent(content: string)
    ensures Preview(Preview(content)) == Preview(content)
  {
    var r := Preview(content);
    PreviewShape(content);
    ReplaceAbsent(r, '\n', ' ');
    TrimFixed(r, WhitespacesAndNewlines);
    assert Normalized(r) == r;
    if |r| > Limit {
      assert r[..Limit] + Ellipsis == r;
    }
  }
}
