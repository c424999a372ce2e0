/** String primitives with the semantics of the .NET calls the news window makes:
    char.IsWhiteSpace, String.TrimStart/Trim, IndexOf/LastIndexOf, Split, Replace and
    the ordinal (optionally case-insensitive) comparisons. Strings are seq<char>. */
module Text {

  datatype Option<T> = None | Some(value: T)

  /** Concatenation is associative (stated once so that callers need no extensionality). */
  lemma ConcatAssoc<T>(a: seq<T>, b: seq<T>, c: seq<T>)
    ensures a + (b + c) == (a + b) + c
  {
  }

  /** char.IsWhiteSpace; Regex `\s` matches exactly the same characters. */
  predicate IsWhiteSpace(c: char) {
    ('\t' <= c <= '\r') || c == ' ' || c == '\U{85}' || c == '\U{A0}' || c == '\U{1680}'
    || ('\U{2000}' <= c <= '\U{200A}') || c == '\U{2028}' || c == '\U{2029}'
    || c == '\U{202F}' || c == '\U{205F}' || c == '\U{3000}'
  }

  predicate IsDigit(c: char) { '0' <= c <= '9' }

  predicate IsHexDigit(c: char) { IsDigit(c) || 'a' <= c <= 'f' || 'A' <= c <= 'F' }

  /** Regex `\w`: ASCII letters, digits and '_'; every non-ASCII character that is not
      white space is taken to be a letter. */
  predicate IsWordChar(c: char) {
    IsDigit(c) || 'a' <= c <= 'z' || 'A' <= c <= 'Z' || c == '_' || (c >= '\U{80}' && !IsWhiteSpace(c))
  }

  predicate AllDigits(s: string) { forall i :: 0 <= i < |s| ==> IsDigit(s[i]) }

  predicate AllHex(s: string) { forall i :: 0 <= i < |s| ==> IsHexDigit(s[i]) }

  predicate AllWhite(s: string) { forall i :: 0 <= i < |s| ==> IsWhiteSpace(s[i]) }

  /** Upper-case mapping used by StringComparison.OrdinalIgnoreCase (ASCII letters only). */
  function ToUpper(c: char): char {
    if 'a' <= c <= 'z' then (c as int - 32) as char else c
  }

  /** Lower-case mapping used by String.ToLower (ASCII letters only). */
  function ToLower(c: char): char {
    if 'A' <= c <= 'Z' then (c as int + 32) as char else c
  }

  function UpperAll(s: string): (r: string)
    ensures |r| == |s| && forall i :: 0 <= i < |s| ==> r[i] == ToUpper(s[i])
  {
    if s == [] then [] else [ToUpper(s[0])] + UpperAll(s[1..])
  }

  function LowerAll(s: string): (r: string)
    ensures |r| == |s| && forall i :: 0 <= i < |s| ==> r[i] == ToLower(s[i])
  {
    if s == [] then [] else [ToLower(s[0])] + LowerAll(s[1..])
  }

  /** String.Equals(a, b, StringComparison.OrdinalIgnoreCase). */
  predicate EqualsIgnoreCase(a: string, b: string) {
    UpperAll(a) == UpperAll(b)
  }

  /** String.StartsWith(p, StringComparison.OrdinalIgnoreCase). */
  predicate StartsWithIgnoreCase(s: string, p: string) {
    |p| <= |s| && EqualsIgnoreCase(s[..|p|], p)
  }

  /** Length of the longest prefix of s made of ASCII digits. */
  function DigitRun(s: string): (n: nat)
    ensures n <= |s| && AllDigits(s[..n]) && (n < |s| ==> !IsDigit(s[n]))
  {
    if s == [] || !IsDigit(s[0]) then 0 else 1 + DigitRun(s[1..])
  }

  /** Length of the longest prefix of s made of white space. */
  function WhiteRun(s: string): (n: nat)
    ensures n <= |s| && AllWhite(s[..n]) && (n < |s| ==> !IsWhiteSpace(s[n]))
  {
    if s == [] || !IsWhiteSpace(s[0]) then 0 else 1 + WhiteRun(s[1..])
  }

  /** String.IndexOf(char): the first position of c, or -1. */
  function IndexOf(s: string, c: char): (r: int)
    ensures -1 <= r < |s|
    ensures r >= 0 ==> s[r] == c && c !in s[..r]
    ensures r == -1 <==> c !in s
  {
    if s == [] then -1
    else if s[0] == c then 0
    else var i := IndexOf(s[1..], c); if i < 0 then -1 else i + 1
  }

  /** IndexOf finds the first occurrence. */
  lemma {:induction false} IndexOfFirst(s: string, c: char, h: nat)
    requires h < |s| && s[h] == c && forall k :: 0 <= k < h ==> s[k] != c
    ensures IndexOf(s, c) == h
  {
    if h > 0 {
      assert s[0] != c;
      IndexOfFirst(s[1..], c, h - 1);
    }
  }

  lemma NotInPrefix(s: string, c: char, h: nat)
    requires h <= |s| && c !in s[..h]
    ensures forall k :: 0 <= k < h ==> s[k] != c
  {
    forall k | 0 <= k < h
      ensures s[k] != c
    {
      assert s[..h][k] == s[k];
    }
  }

  function LastIndexOf(s: string, c: char): (r: int)
    ensures -1 <= r < |s|
    ensures r >= 0 ==> s[r] == c && c !in s[r + 1..]
    ensures r == -1 <==> c !in s
  {
    if s == [] then -1
    else if s[|s| - 1] == c then |s| - 1
    else
      var p := s[..|s| - 1];
      var r := LastIndexOf(p, c);
      assert s == p + [s[|s| - 1]];
      assert r >= 0 ==> s[r + 1..] == p[r + 1..] + [s[|s| - 1]];
      r
  }

  /** String.TrimStart() with no arguments. */
  function TrimStart(s: string): (r: string)
    ensures |r| <= |s| && r == s[|s| - |r|..]
    ensures AllWhite(s[..|s| - |r|])
    ensures r == [] || !IsWhiteSpace(r[0])
  {
    s[WhiteRun(s)..]
  }

  /** String.TrimEnd() with no arguments. */
  function TrimEnd(s: string): (r: string)
    ensures |r| <= |s| && r == s[..|r|]
    ensures AllWhite(s[|r|..])
    ensures r == [] || !IsWhiteSpace(r[|r| - 1])
  {
    if s != [] && IsWhiteSpace(s[|s| - 1]) then
      var p := s[..|s| - 1];
      var r := TrimEnd(p);
      assert s[..|r|] == p[..|r|];
      assert s[|r|..] == p[|r|..] + [s[|s| - 1]];
      r
    else s
  }

  /** String.Trim() with no arguments. */
  function Trim(s: string): (r: string)
    ensures r == [] || (!IsWhiteSpace(r[0]) && !IsWhiteSpace(r[|r| - 1]))
  {
    TrimEnd(TrimStart(s))
  }

  lemma TrimStartOfTrimmed(s: string)
    requires s == [] || !IsWhiteSpace(s[0])
    ensures TrimStart(s) == s
  {
  }

  lemma TrimEndOfTrimmed(s: string)
    requires s == [] || !IsWhiteSpace(s[|s| - 1])
    ensures TrimEnd(s) == s
  {
  }

  /** Trimming is idempotent. */
  lemma TrimIdempotent(s: string)
    ensures Trim(Trim(s)) == Trim(s)
  {
    var t := Trim(s);
    TrimStartOfTrimmed(t);
    TrimEndOfTrimmed(t);
  }

  /** Trimming adds no character. */
  lemma TrimKeepsAbsent(s: string, x: char)
    requires x !in s
    ensures x !in Trim(s)
  {
    TrimIsInfix(s);
    var i, j :| 0 <= i <= j <= |s| && Trim(s) == s[i..j];
    assert forall y :: y in s[i..j] ==> y in s;
  }

  lemma TrimIsInfix(s: string)
    ensures exists i, j :: 0 <= i <= j <= |s| && Trim(s) == s[i..j]
  {
    var a := TrimStart(s);
    var b := TrimEnd(a);
    var i := |s| - |a|;
    assert a == s[i..];
    assert b == s[i..i + |b|];
  }

  /** Trim of white space followed by t is the trim of t. */
  lemma TrimStartLeadingWhite(w: string, t: string)
    requires AllWhite(w)
    ensures TrimStart(w + t) == TrimStart(t)
    decreases |w|
  {
    if w == [] {
      assert w + t == t;
    } else {
      assert (w + t)[0] == w[0];
      assert (w + t)[1..] == w[1..] + t;
      TrimStartLeadingWhite(w[1..], t);
    }
  }

  /** A trailing space does not change TrimEnd. */
  lemma TrimEndTrailingSpace(t: string)
    ensures TrimEnd(t + " ") == TrimEnd(t)
  {
    assert (t + " ")[..|t|] == t;
  }

  /** Replacing a pattern that occurs only once, at the very end. */
  lemma {:induction false} ReplaceAtEnd(a: string, pat: string, rep: string)
    requires pat != "" && pat[0] !in a
    ensures ReplaceAll(a + pat, pat, rep) == a + rep
    decreases |a|
  {
    if a == [] {
      assert a + pat == pat;
      assert (a + pat)[|pat|..] == [];
    } else {
      assert (a + pat)[..|pat|] != pat by {
        assert (a + pat)[..|pat|][0] == a[0] != pat[0];
      }
      assert (a + pat)[1..] == a[1..] + pat;
      ReplaceAtEnd(a[1..], pat, rep);
      ConcatAssoc([a[0]], a[1..], rep);
      assert [a[0]] + a[1..] == a;
    }
  }

  /** String.Split(sep): the pieces between occurrences of sep, empty ones included. */
  function Split(s: string, sep: char): (r: seq<string>)
    ensures |r| >= 1
    ensures forall i :: 0 <= i < |r| ==> sep !in r[i]
    decreases |s|
  {
    var i := IndexOf(s, sep);
    if i < 0 then [s]
    else
      var rest := Split(s[i + 1..], sep);
      assert forall j :: 1 <= j < 1 + |rest| ==> ([s[..i]] + rest)[j] == rest[j - 1];
      [s[..i]] + rest
  }

  /** String.Join(sep, pieces). */
  function Join(pieces: seq<string>, sep: char): string {
    if pieces == [] then ""
    else if |pieces| == 1 then pieces[0]
    else pieces[0] + [sep] + Join(pieces[1..], sep)
  }

  /** Split unfolded at the first separator. */
  lemma SplitAtFirst(s: string, sep: char)
    requires IndexOf(s, sep) >= 0
    ensures var i := IndexOf(s, sep); Split(s, sep) == [s[..i]] + Split(s[i + 1..], sep)
  {
  }

  /** Without a separator, Split gives the whole string as its one piece. */
  lemma SplitNoSep(s: string, sep: char)
    requires IndexOf(s, sep) < 0
    ensures Split(s, sep) == [s] && Join(Split(s, sep), sep) == s
  {
  }

  /** Split reads a piece free of the separator, then goes on after the separator. */
  lemma SplitAfterPiece(x: string, rest: string, sep: char)
    requires sep !in x
    ensures Split(x + [sep] + rest, sep) == [x] + Split(rest, sep)
  {
    var s := x + [sep] + rest;
    IndexOfFirst(s, sep, |x|);
    assert s[..|x|] == x && s[|x| + 1..] == rest;
    SplitAtFirst(s, sep);
  }

  /** Two separators in a row leave an empty piece between them. */
  lemma SplitKeepsEmptyPiece(x: string, y: string, sep: char)
    requires sep !in x && sep !in y
    ensures Split(x + [sep] + ([sep] + y), sep) == [x, "", y]
  {
    SplitAfterPiece([], y, sep);
    assert [] + [sep] + y == [sep] + y;
    SplitNoSep(y, sep);
    SplitAfterPiece(x, [sep] + y, sep);
  }

  /** Join unfolded at its first piece. */
  lemma JoinCons(head: string, rest: seq<string>, sep: char)
    requires rest != []
    ensures Join([head] + rest, sep) == head + [sep] + Join(rest, sep)
  {
    assert ([head] + rest)[1..] == rest;
  }

  /** A string is the part before position i, the separator there, and the part after. */
  lemma PieceAround(s: string, i: int, sep: char)
    requires 0 <= i < |s| && s[i] == sep
    ensures s == s[..i] + [sep] + s[i + 1..]
  {
  }

  /** Splitting and joining again gives back the original string. */
  lemma {:induction false} JoinSplit(s: string, sep: char)
    ensures Join(Split(s, sep), sep) == s
    decreases |s|
  {
    var i := IndexOf(s, sep);
    if i < 0 {
      SplitNoSep(s, sep);
    } else {
      var head, tail := s[..i], s[i + 1..];
      SplitAtFirst(s, sep);
      JoinCons(head, Split(tail, sep), sep);
      JoinSplit(tail, sep);
      PieceAround(s, i, sep);
    }
  }

  /** Joining pieces without the separator and splitting again gives the pieces back. */
  lemma {:induction false} SplitJoin(pieces: seq<string>, sep: char)
    requires pieces != [] && forall i :: 0 <= i < |pieces| ==> sep !in pieces[i]
    ensures Split(Join(pieces, sep), sep) == pieces
    decreases |pieces|
  {
    if |pieces| > 1 {
      var head, rest := pieces[0], pieces[1..];
      var tail := Join(rest, sep);
      assert pieces == [head] + rest;
      JoinCons(head, rest, sep);
      var s := head + [sep] + tail;
      assert Split(s, sep) == [head] + Split(tail, sep) by {
        FirstSepAt(head, tail, sep);
        SplitAtFirst(s, sep);
      }
      SplitJoin(rest, sep);
    }
  }

  /** The first separator of head, sep, tail is the one after head, when head has none. */
  lemma FirstSepAt(head: string, tail: string, sep: char)
    requires sep !in head
    ensures var s := head + [sep] + tail;
      IndexOf(s, sep) == |head| && s[..|head|] == head && s[|head| + 1..] == tail
  {
    var s := head + [sep] + tail;
    NotInPrefix(s, sep, |head|) by {
      assert s[..|head|] == head;
    }
    IndexOfFirst(s, sep, |head|);
    assert s[..|head|] == head && s[|head| + 1..] == tail;
  }

  /** Joining one more piece on the right. */
  lemma {:induction false} JoinSnoc(pieces: seq<string>, x: string, sep: char)
    requires pieces != []
    ensures Join(pieces + [x], sep) == Join(pieces, sep) + [sep] + x
    decreases |pieces|
  {
    assert (pieces + [x])[0] == pieces[0];
    if |pieces| > 1 {
      assert (pieces + [x])[1..] == pieces[1..] + [x];
      JoinSnoc(pieces[1..], x, sep);
    } else {
      assert (pieces + [x])[1..] == [x];
    }
  }

  /** Keeps the non-empty pieces (StringSplitOptions.RemoveEmptyEntries). */
  function NonEmpty(pieces: seq<string>): (r: seq<string>)
    ensures forall i :: 0 <= i < |r| ==> r[i] != ""
    ensures |r| <= |pieces|
  {
    if pieces == [] then []
    else (if pieces[0] == "" then [] else [pieces[0]]) + NonEmpty(pieces[1..])
  }

  lemma {:induction false} NonEmptyOfNonEmpty(pieces: seq<string>)
    requires forall i :: 0 <= i < |pieces| ==> pieces[i] != ""
    ensures NonEmpty(pieces) == pieces
    decreases |pieces|
  {
    if pieces != [] {
      NonEmptyOfNonEmpty(pieces[1..]);
    }
  }

  /** String.Split(new[] { sep }, StringSplitOptions.RemoveEmptyEntries). */
  function SplitNonEmpty(s: string, sep: char): seq<string> {
    NonEmpty(Split(s, sep))
  }

  /** String.Replace(pat, rep): ordinal, left to right, non-overlapping occurrences. */
  function ReplaceAll(s: string, pat: string, rep: string): string
    requires pat != ""
    decreases |s|
  {
    if |s| < |pat| then s
    else if s[..|pat|] == pat then rep + ReplaceAll(s[|pat|..], pat, rep)
    else [s[0]] + ReplaceAll(s[1..], pat, rep)
  }

  /** Replacing a pattern that does not occur leaves the string unchanged. */
  lemma {:induction false} ReplaceAbsent(s: string, pat: string, rep: string)
    requires pat != "" && pat[0] !in s
    ensures ReplaceAll(s, pat, rep) == s
    decreases |s|
  {
    if |s| >= |pat| {
      assert s[0] != pat[0];
      assert s[..|pat|] != pat;
      ReplaceAbsent(s[1..], pat, rep);
      assert s == [s[0]] + s[1..];
    }
  }

  /** Replacing a one-character pattern removes it, and adds only characters of rep. */
  lemma {:induction false} ReplaceRemovesChar(s: string, c: char, rep: string, d: char)
    requires c !in rep && (d !in s || d == c) && d !in rep
    ensures c !in ReplaceAll(s, [c], rep) && d !in ReplaceAll(s, [c], rep)
    decreases |s|
  {
    if |s| >= 1 {
      ReplaceRemovesChar(s[1..], c, rep, d);
    }
  }

  /** Replacing a pattern by a string without the character d keeps d out. */
  lemma {:induction false} ReplaceKeepsAbsent(s: string, pat: string, rep: string, d: char)
    requires pat != "" && d !in s && d !in rep
    ensures d !in ReplaceAll(s, pat, rep)
    decreases |s|
  {
    if |s| >= |pat| {
      if s[..|pat|] == pat {
        ReplaceKeepsAbsent(s[|pat|..], pat, rep, d);
      } else {
        ReplaceKeepsAbsent(s[1..], pat, rep, d);
      }
    }
  }

  /** Ordinal comparison (String.CompareOrdinal(a, b) <= 0). */
  predicate LexLe(a: string, b: string) {
    a == [] || (b != [] && (a[0] < b[0] || (a[0] == b[0] && LexLe(a[1..], b[1..]))))
  }

  lemma {:induction false} LexLeTotal(a: string, b: string)
    ensures LexLe(a, b) || LexLe(b, a)
  {
    if a != [] && b != [] && a[0] == b[0] {
      LexLeTotal(a[1..], b[1..]);
    }
  }

  lemma {:induction false} LexLeAntisymmetric(a: string, b: string)
    requires LexLe(a, b) && LexLe(b, a)
    ensures a == b
  {
    if a != [] && b != [] {
      LexLeAntisymmetric(a[1..], b[1..]);
      assert a == [a[0]] + a[1..] && b == [b[0]] + b[1..];
    }
  }

  lemma {:induction false} LexLeTransitive(a: string, b: string, c: string)
    requires LexLe(a, b) && LexLe(b, c)
    ensures LexLe(a, c)
  {
    if a != [] && b != [] && c != [] && a[0] == b[0] && b[0] == c[0] {
      LexLeTransitive(a[1..], b[1..], c[1..]);
    }
  }

  /** A way of ordering names a sort can use: any two names compare one way or the other
      (names may rank equal without being equal), and comparing is transitive. */
  ghost predicate TotalPreorder(le: (string, string) -> bool) {
    (forall a, b :: le(a, b) || le(b, a))
    && (forall a, b, c :: le(a, b) && le(b, c) ==> le(a, c))
  }

  /** The comparer of `OrderBy(k => k.Key)` on folder names: the current culture's string
      comparison, which is not part of this model; what is proved about it holds for every
      comparer of this kind. */
  type NameOrder = le: (string, string) -> bool | TotalPreorder(le)
    witness (a: string, b: string) => true

  /** Ordinal comparison is one such comparer. */
  lemma OrdinalIsNameOrder()
    ensures TotalPreorder(LexLe)
  {
    forall a, b ensures LexLe(a, b) || LexLe(b, a) {
      LexLeTotal(a, b);
    }
    forall a, b, c | LexLe(a, b) && LexLe(b, c) ensures LexLe(a, c) {
      LexLeTransitive(a, b, c);
    }
  }
}
