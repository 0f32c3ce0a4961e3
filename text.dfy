/** Character classes and the string operations of Foundation that the journal
    view relies on: trimming a character set, replacing one character,
    splitting on a character set, joining with a separator and ASCII
    lowercasing. Strings are sequences of Unicode scalar values. */
module Text {

  /** CharacterSet.whitespaces: the Unicode space separators (category Zs)
      and the horizontal tab. */
  predicate IsBlank(c: char) {
    c == ' ' || c == '\t' || c == '\U{00A0}' || c == '\U{1680}'
    || ('\U{2000}' <= c <= '\U{200A}') || c == '\U{202F}' || c == '\U{205F}' || c == '\U{3000}'
  }

  /** CharacterSet.newlines: U+000A through U+000D, U+0085, U+2028 and U+2029. */
  predicate IsNewline(c: char) {
    ('\n' <= c <= '\r') || c == '\U{0085}' || c == '\U{2028}' || c == '\U{2029}'
  }

  /** CharacterSet.whitespacesAndNewlines. */
  predicate IsSpaceOrNewline(c: char) {
    IsBlank(c) || IsNewline(c)
  }

  /** The characters stripped from both ends of every word of a title. */
  predicate IsPunctuation(c: char) {
    c == '.' || c == ',' || c == '!' || c == '?' || c == ';' || c == ':' || c == '"' || c == '\''
    || c == '(' || c == ')' || c == '[' || c == ']' || c == '{' || c == '}' || c == '<' || c == '>'
  }

  /** The character sets the view trims with or splits on. */
  datatype CharSet = Whitespaces | WhitespacesAndNewlines | TitlePunctuation

  predicate InSet(c: char, cs: CharSet) {
    match cs
    case Whitespaces => IsBlank(c)
    case WhitespacesAndNewlines => IsSpaceOrNewline(c)
    case TitlePunctuation => IsPunctuation(c)
  }

  predicate IsUpperAscii(c: char) {
    'A' <= c <= 'Z'
  }

  /** The end of the run of characters in `cs` that starts at `from`. */
  function SkipForward(s: string, cs: CharSet, from: nat): (k: nat)
    requires from <= |s|
    ensures from <= k <= |s|
    ensures forall i :: from <= i < k ==> InSet(s[i], cs)
    ensures k < |s| ==> !InSet(s[k], cs)
    decreases |s| - from
  {
    if from < |s| && InSet(s[from], cs) then SkipForward(s, cs, from + 1) else from
  }

  /** The start of the run of characters in `cs` that ends just before `to`. */
  function SkipBackward(s: string, cs: CharSet, to: nat): (k: nat)
    requires to <= |s|
    ensures k <= to
    ensures forall i :: k <= i < to ==> InSet(s[i], cs)
    ensures k > 0 ==> !InSet(s[k - 1], cs)
  {
    if to > 0 && InSet(s[to - 1], cs) then SkipBackward(s, cs, to - 1) else to
  }

  /** String.trimmingCharacters(in:): the infix of `s` left after removing
      every leading and every trailing character in the set. */
  function Trim(s: string, cs: CharSet): (r: string)
    ensures var k := SkipForward(s, cs, 0);
      k + |r| <= |s| && r == s[k..k + |r|]
      && (forall i :: 0 <= i < k ==> InSet(s[i], cs))
      && (forall i :: k + |r| <= i < |s| ==> InSet(s[i], cs))
    ensures r != [] ==> !InSet(r[0], cs) && !InSet(r[|r| - 1], cs)
    ensures r == [] <==> forall i :: 0 <= i < |s| ==> InSet(s[i], cs)
    ensures forall c :: c in r ==> c in s
  {
    var k := SkipForward(s, cs, 0);
    var e := if k == |s| then k else SkipBackward(s, cs, |s|);
    InfixChars(s, k, s[k..e]);
    s[k..e]
  }

  lemma InfixChars(s: string, k: nat, r: string)
    requires k + |r| <= |s| && r == s[k..k + |r|]
    ensures forall c :: c in r ==> c in s
  {
    forall c | c in r ensures c in s {
      var i :| 0 <= i < |r| && r[i] == c;
      assert s[k + i] == c;
    }
  }

  /** A string that neither starts nor ends with a character of the set is
      left as it is by Trim. */
  lemma TrimFixed(s: string, cs: CharSet)
    requires s != [] ==> !InSet(s[0], cs) && !InSet(s[|s| - 1], cs)
    ensures Trim(s, cs) == s
  {
  }

  lemma TrimIdempotent(s: string, cs: CharSet)
    ensures Trim(Trim(s, cs), cs) == Trim(s, cs)
  {
    TrimFixed(Trim(s, cs), cs);
  }

  /** String.replacingOccurrences(of:with:) for a one-character pattern. */
  function Replace(s: string, from: char, to: char): (r: string)
    ensures |r| == |s|
    ensures forall i :: 0 <= i < |s| && s[i] != from ==> r[i] == s[i]
    ensures forall i :: 0 <= i < |s| && s[i] == from ==> r[i] == to
    ensures from != to ==> from !in r
  {
    if s == [] then [] else [if s[0] == from then to else s[0]] + Replace(s[1..], from, to)
  }

  /** Replacing a character that does not occur changes nothing. */
  lemma ReplaceAbsent(s: string, from: char, to: char)
    requires from !in s
    ensures Replace(s, from, to) == s
  {
  }

  /** ASCII lowercasing of one character; every other character is kept. */
  function Lower(c: char): (r: char)
    ensures !IsUpperAscii(r)
    ensures IsUpperAscii(c) ==> r as int == c as int + 32
    ensures !IsUpperAscii(c) ==> r == c
  {
    if IsUpperAscii(c) then (c as int + 32) as char else c
  }

  function LowerString(s: string): (r: string)
    ensures |r| == |s|
    ensures forall i :: 0 <= i < |s| ==> r[i] == Lower(s[i])
  {
    if s == [] then [] else [Lower(s[0])] + LowerString(s[1..])
  }

  /** String.components(separatedBy:) for a character set: the pieces between
      separators, empty pieces included, so there is always at least one. */
  function Split(s: string, sep: CharSet): (r: seq<string>)
    ensures |r| >= 1
    decreases |s|
  {
    if s == [] then
      [[]]
    else
      var rest := Split(s[1..], sep);
      if InSet(s[0], sep) then [[]] + rest else [[s[0]] + rest[0]] + rest[1..]
  }

  /** The pieces hold only characters of the input and no separator. */
  lemma {:induction false} SplitChars(s: string, sep: CharSet)
    ensures forall w :: w in Split(s, sep) ==> forall c :: c in w ==> c in s && !InSet(c, sep)
    decreases |s|
  {
    if s != [] {
      SplitChars(s[1..], sep);
      var rest := Split(s[1..], sep);
      assert rest[0] in rest && forall w :: w in rest[1..] ==> w in rest;
      assert forall c :: c in s[1..] ==> c in s;
    }
  }

  /** A piece with no separator in it is not cut. */
  lemma {:induction false} SplitNoSep(a: string, sep: CharSet)
    requires forall i :: 0 <= i < |a| ==> !InSet(a[i], sep)
    ensures Split(a, sep) == [a]
    decreases |a|
  {
    if a != [] {
      SplitNoSep(a[1..], sep);
      assert [a[0]] + a[1..] == a;
    }
  }

  /** A leading separator starts with an empty piece. */
  lemma SplitConsSep(x: char, t: string, sep: CharSet)
    requires InSet(x, sep)
    ensures Split([x] + t, sep) == [[]] + Split(t, sep)
  {
    assert ([x] + t)[1..] == t;
  }

  /** A leading character that is not a separator joins the first piece. */
  lemma SplitConsKeep(x: char, t: string, sep: CharSet)
    requires !InSet(x, sep)
    ensures Split([x] + t, sep) == [[x] + Split(t, sep)[0]] + Split(t, sep)[1..]
  {
    assert ([x] + t)[1..] == t;
  }

  /** Splitting cuts at every separator: the pieces on either side of one
      are the pieces of each side. */
  lemma {:induction false} SplitAtSep(a: string, c: char, b: string, sep: CharSet)
    requires InSet(c, sep)
    ensures Split(a + [c] + b, sep) == Split(a, sep) + Split(b, sep)
    decreases |a|
  {
    if a == [] {
      assert a + [c] + b == [c] + b;
      SplitConsSep(c, b, sep);
    } else {
      SplitAtSep(a[1..], c, b, sep);
      SplitStep(a[0], a[1..] + [c] + b, a[1..], Split(b, sep), sep);
      assert a + [c] + b == [a[0]] + (a[1..] + [c] + b);
      assert a == [a[0]] + a[1..];
    }
  }

  /** One more leading character keeps a split of `t` that starts with the
      pieces of `u`. */
  lemma SplitStep(x: char, t: string, u: string, right: seq<string>, sep: CharSet)
    requires Split(t, sep) == Split(u, sep) + right
    ensures Split([x] + t, sep) == Split([x] + u, sep) + right
  {
    if InSet(x, sep) {
      SplitConsSep(x, t, sep);
      SplitConsSep(x, u, sep);
      PrependPiece([], Split(u, sep), right);
    } else {
      SplitConsKeep(x, t, sep);
      SplitConsKeep(x, u, sep);
      ConsOntoFirst(x, Split(u, sep), right);
    }
  }

  lemma PrependPiece(w: string, left: seq<string>, right: seq<string>)
    ensures [w] + (left + right) == ([w] + left) + right
  {
  }

  /** Prepending a character to the first piece commutes with appending
      more pieces. */
  lemma ConsOntoFirst(x: char, left: seq<string>, right: seq<string>)
    requires |left| >= 1
    ensures [[x] + (left + right)[0]] + (left + right)[1..] == ([[x] + left[0]] + left[1..]) + right
  {
    assert (left + right)[0] == left[0] && (left + right)[1..] == left[1..] + right;
  }

  function Concat(ws: seq<string>): string {
    if ws == [] then [] else ws[0] + Concat(ws[1..])
  }

  /** The characters of `s` that are not separators, in order. */
  function RemoveAll(s: string, sep: CharSet): string {
    if s == [] then [] else (if InSet(s[0], sep) then [] else [s[0]]) + RemoveAll(s[1..], sep)
  }

  function Count(s: string, sep: CharSet): nat {
    if s == [] then 0 else (if InSet(s[0], sep) then 1 else 0) + Count(s[1..], sep)
  }

  /** Splitting loses exactly the separators: the pieces concatenate to the
      non-separator characters, and there is one piece more than separators. */
  lemma {:induction false} SplitPieces(s: string, sep: CharSet)
    ensures Concat(Split(s, sep)) == RemoveAll(s, sep)
    ensures |Split(s, sep)| == Count(s, sep) + 1
  {
    if s != [] {
      var rest := Split(s[1..], sep);
      SplitPieces(s[1..], sep);
      if InSet(s[0], sep) {
        assert ([[]] + rest)[1..] == rest;
      } else {
        var r := [[s[0]] + rest[0]] + rest[1..];
        assert r[1..] == rest[1..];
        assert Concat(rest) == rest[0] + Concat(rest[1..]);
        assert Concat(r) == [s[0]] + rest[0] + Concat(rest[1..]);
      }
    }
  }

  /** Array.joined(separator:). */
  function Join(ws: seq<string>, sep: string): string {
    if |ws| == 0 then [] else if |ws| == 1 then ws[0] else ws[0] + sep + Join(ws[1..], sep)
  }

  /** Joining pieces that hold no separator with one separator character
      and splitting again gives back the pieces. */
  lemma {:induction false} SplitJoin(ws: seq<string>, c: char, sep: CharSet)
    requires ws != [] && InSet(c, sep)
    requires forall k, i :: 0 <= k < |ws| && 0 <= i < |ws[k]| ==> !InSet(ws[k][i], sep)
    ensures Split(Join(ws, [c]), sep) == ws
    decreases |ws|
  {
    SplitNoSep(ws[0], sep);
    if |ws| > 1 {
      SplitJoin(ws[1..], c, sep);
      SplitAtSep(ws[0], c, Join(ws[1..], [c]), sep);
      assert Join(ws, [c]) == ws[0] + [c] + Join(ws[1..], [c]);
      assert [ws[0]] + ws[1..] == ws;
    }
  }

  /** A joined string starts with the first piece and consists of the pieces'
      characters and the separator's characters only. */
  lemma {:induction false} JoinChars(ws: seq<string>, sep: string)
    requires ws != []
    ensures |Join(ws, sep)| >= |ws[0]| && Join(ws, sep)[..|ws[0]|] == ws[0]
    ensures forall c :: c in Join(ws, sep) ==> c in sep || exists w :: w in ws && c in w
  {
    if |ws| > 1 {
      JoinChars(ws[1..], sep);
      var j := Join(ws, sep);
      assert j == ws[0] + sep + Join(ws[1..], sep);
      forall c | c in j ensures c in sep || exists w :: w in ws && c in w {
        if c in ws[0] {
        } else if c in sep {
        } else {
          assert c in Join(ws[1..], sep);
          var w :| w in ws[1..] && c in w;
          assert w in ws;
        }
      }
    }
  }
}
