/** The file-name slug used when a journal entry is exported: the first four
    words of the entry, stripped of surrounding punctuation and lowercased,
    joined with hyphens; "Entry <date>" when the entry has no words. */
module Title {
  import opened Text

  const MaxWords: nat := 4

  /** Array.filter { !$0.isEmpty }. */
  function NonEmpty(ws: seq<string>): (r: seq<string>)
    ensures forall w :: w in r ==> w != [] && w in ws
    ensures forall w :: w in ws && w != [] ==> w in r
  {
    if ws == [] then []
    else
      assert forall w :: w in ws[1..] ==> w in ws;
      (if ws[0] == [] then [] else [ws[0]]) + NonEmpty(ws[1..])
  }

  /** Filtering works piece by piece: it keeps the order and the repeats of
      the strings it keeps. */
  lemma {:induction false} NonEmptyAppend(a: seq<string>, b: seq<string>)
    ensures NonEmpty(a + b) == NonEmpty(a) + NonEmpty(b)
  {
    if a == [] {
      assert a + b == b;
    } else {
      assert (a + b)[1..] == a[1..] + b;
      NonEmptyAppend(a[1..], b);
    }
  }

  /** A single string is kept exactly when it is not empty. */
  lemma NonEmptyOne(w: string)
    ensures NonEmpty([w]) == if w == [] then [] else [w]
  {
    assert [w][1..] == [];
  }

  function CleanWord(w: string): string {
    LowerString(Trim(w, TitlePunctuation))
  }

  function CleanAll(ws: seq<string>): seq<string> {
    seq(|ws|, i requires 0 <= i < |ws| => CleanWord(ws[i]))
  }

  /** The words of already trimmed content: line feeds become spaces, the text
      is split at blanks, empty pieces are dropped, each piece is cleaned and
      pieces left empty by cleaning are dropped. */
  function TitleWords(trimmed: string): seq<string> {
    NonEmpty(CleanAll(NonEmpty(Split(Replace(trimmed, '\n', ' '), Whitespaces))))
  }

  function WordsOf(content: string): seq<string> {
    TitleWords(Trim(content, WhitespacesAndNewlines))
  }

  function ExtractTitle(content: string, date: string): string {
    var trimmed := Trim(content, WhitespacesAndNewlines);
    if trimmed == [] then
      "Entry " + date
    else
      var words := TitleWords(trimmed);
      if |words| >= MaxWords then
        words[0] + "-" + words[1] + "-" + words[2] + "-" + words[3]
      else if words != [] then
        Join(words, "-")
      else
        "Entry " + date
  }

  /** What a title word looks like: never empty, no blank, no line feed, no
      upper-case ASCII letter, and no punctuation at either end. */
  ghost predicate IsTitleWord(w: string) {
    w != []
    && (forall c :: c in w ==> !IsBlank(c) && c != '\n' && !IsUpperAscii(c))
    && !IsPunctuation(w[0]) && !IsPunctuation(w[|w| - 1])
  }

  /** ASCII lowercasing turns a letter into a letter, so it never creates or
      removes a blank, a line feed or a punctuation character. */
  lemma LowerKeepsClass(c: char)
    ensures IsBlank(Lower(c)) == IsBlank(c)
    ensures (Lower(c) == '\n') == (c == '\n')
    ensures IsPunctuation(Lower(c)) == IsPunctuation(c)
  {
  }

  lemma CleanWordShape(x: string)
    requires forall c :: c in x ==> !IsBlank(c) && c != '\n'
    ensures CleanWord(x) != [] ==> IsTitleWord(CleanWord(x))
  {
    var t := Trim(x, TitlePunctuation);
    var w := CleanWord(x);
    forall c | c in w ensures !IsBlank(c) && c != '\n' && !IsUpperAscii(c) {
      var i :| 0 <= i < |w| && w[i] == c;
      assert t[i] in t;
      LowerKeepsClass(t[i]);
    }
    if w != [] {
      LowerKeepsClass(t[0]);
      LowerKeepsClass(t[|t| - 1]);
    }
  }

  lemma {:induction false} TitleWordsShape(content: string)
    ensures forall w :: w in WordsOf(content) ==> IsTitleWord(w)
  {
    var trimmed := Trim(content, WhitespacesAndNewlines);
    var pieces := NonEmpty(Split(Replace(trimmed, '\n', ' '), Whitespaces));
    SplitChars(Replace(trimmed, '\n', ' '), Whitespaces);
    var cleaned := CleanAll(pieces);
    forall w | w in WordsOf(content) ensures IsTitleWord(w) {
      assert w in cleaned;
      var i :| 0 <= i < |cleaned| && cleaned[i] == w;
      assert pieces[i] in pieces;
      CleanWordShape(pieces[i]);
    }
  }

  /** Content that is empty after trimming has no words, so the first branch
      of ExtractTitle agrees with the fallback at its end. */
  lemma NoWordsInBlank()
    ensures TitleWords([]) == []
  {
    assert Split(Replace([], '\n', ' '), Whitespaces) == [[]];
    assert NonEmpty([[]]) == [];
    assert CleanAll([]) == [];
  }

  lemma JoinFour(ws: seq<string>)
    requires |ws| >= 4
    ensures Join(ws[..4], "-") == ws[0] + "-" + ws[1] + "-" + ws[2] + "-" + ws[3]
  {
    var f := ws[..4];
    assert f[1..][1..][1..] == [ws[3]];
    assert Join(f[1..][1..], "-") == ws[2] + "-" + ws[3];
    assert Join(f[1..], "-") == ws[1] + "-" + (ws[2] + "-" + ws[3]);
  }

  /** The title is "Entry <date>" when there are no words, and otherwise the
      first min(4, n) words joined with hyphens. */
  lemma {:induction false} ExtractTitleIsSlug(content: string, date: string)
    ensures var ws := WordsOf(content);
      ExtractTitle(content, date)
        == if ws == [] then "Entry " + date
           else Join(ws[..if |ws| < MaxWords then |ws| else MaxWords], "-")
  {
    var ws := WordsOf(content);
    NoWordsInBlank();
    if |ws| >= MaxWords {
      JoinFour(ws);
    } else {
      assert ws[..|ws|] == ws;
    }
  }

  /** The fallback title is produced exactly when the content has no words:
      a slug starts with a lowercased word, never with "E". */
  lemma {:induction false} FallbackIffNoWords(content: string, date: string)
    ensures ExtractTitle(content, date) == "Entry " + date <==> WordsOf(content) == []
  {
    var ws := WordsOf(content);
    ExtractTitleIsSlug(content, date);
    if ws != [] {
      TitleWordsShape(content);
      var f := ws[..if |ws| < MaxWords then |ws| else MaxWords];
      JoinChars(f, "-");
      assert f[0] == ws[0] && IsTitleWord(ws[0]);
      assert Join(f, "-")[0] == ws[0][0];
      assert ws[0][0] in ws[0];
      assert ("Entry " + date)[0] == 'E';
    }
  }

  /** A slug holds no blank and no line feed, so it is usable as one
      file-name component. */
  lemma {:induction false} SlugHasNoBlanks(content: string, date: string)
    requires WordsOf(content) != []
    ensures forall c :: c in ExtractTitle(content, date) ==> !IsBlank(c) && c != '\n'
  {
    var ws := WordsOf(content);
    ExtractTitleIsSlug(content, date);
    TitleWordsShape(content);
    var f := ws[..if |ws| < MaxWords then |ws| else MaxWords];
    JoinChars(f, "-");
    forall c | c in Join(f, "-") ensures !IsBlank(c) && c != '\n' {
      if c !in "-" {
        var w :| w in f && c in w;
        assert w in ws;
      }
    }
  }
}
