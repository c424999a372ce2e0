/** The naming conventions of the news repository: an "N." ordering prefix on folder and
    button names, "Color #RRGGBB" background markers, "Post.N title" folders that become
    posts, and ".txt" button descriptors whose file name gives the label and order. */
module Naming {
  import opened Text
  import opened Numbers

  /** GetOrderAndName's result: the explicit order (int.MaxValue when there is none) and
      the name to display. */
  datatype OrderedName = OrderedName(order: int, displayName: string)

  /** UnityEngine.Color32. */
  datatype Color32 = Color32(r: byte, g: byte, b: byte, a: byte)

  /** The window's default background, opaque black; also what a failed colour parse yields. */
  const BackColor: Color32 := Color32(0, 0, 0, 0xFF)

  /** The word a colour marker's name starts with (any case). */
  const ColorWord: string := "Color"

  /** The word a button descriptor's name starts with (any case). */
  const ButtonWord: string := "Button"

  /** TryParseColorFromName's return value and its out parameter. */
  datatype ColorParse = ColorParse(ok: bool, color: Color32)

  /** ParseButtonName's result. */
  datatype ButtonName = ButtonName(displayName: string, order: int)

  /** The two groups of `^Post\.([0-9]+)(?:\s+(.*))?$` (an unmatched group reads as ""). */
  datatype PostName = PostName(digits: string, title: string)

  /** The number and title a post folder contributes. */
  datatype PostHeader = PostHeader(number: int, title: string)

  predicate IsSuffix(a: string, b: string) {
    |a| <= |b| && a == b[|b| - |a|..]
  }

  lemma SplitAt(a: string, b: string)
    ensures (a + b)[..|a|] == a && (a + b)[|a|..] == b
  {
  }

  lemma SuffixOfSuffix(a: string, b: string, c: string)
    requires IsSuffix(a, b) && IsSuffix(b, c)
    ensures IsSuffix(a, c)
  {
    assert c[|c| - |b|..][|b| - |a|..] == c[|c| - |a|..];
  }

  /** At position i of the left-trimmed name t stands its first '.', the text before it
      is non-empty and Int32.TryParse reads n from it, and rest is what follows the '.',
      left-trimmed. */
  predicate OrderPrefixAt(t: string, i: int, n: int, rest: string) {
    0 < i < |t| && t[i] == '.' && (forall k :: 0 <= k < i ==> t[k] != '.')
    && TryParseInt32(t[..i]) == Some(n) && rest == TrimStart(t[i + 1..])
  }

  /** The name, left-trimmed, is "N." followed by the text rest (before left-trimming). */
  ghost predicate HasOrderPrefix(raw: string, n: int, rest: string) {
    exists i :: OrderPrefixAt(TrimStart(raw), i, n, rest)
  }

  /** What follows the '.' of a left-trimmed name, left-trimmed again, ends the name. */
  lemma OrderRestIsSuffix(raw: string, dot: int)
    requires 0 <= dot < |TrimStart(raw)|
    ensures var t := TrimStart(raw); IsSuffix(TrimStart(t[dot + 1..]), raw)
  {
    var t := TrimStart(raw);
    SuffixOfDrop(TrimStart(t[dot + 1..]), t, raw, dot + 1);
  }

  lemma SuffixOfDrop(a: string, b: string, c: string, k: int)
    requires IsSuffix(b, c) && 0 <= k <= |b| && IsSuffix(a, b[k..])
    ensures IsSuffix(a, c)
  {
    assert b[k..] == c[|c| - |b| + k..];
    assert c[|c| - |b| + k..][|b| - k - |a|..] == c[|c| - |a|..];
  }

  /** GetOrderAndName: an "N." prefix gives the order and the rest of the name; without
      one the order is int.MaxValue and the name is returned unchanged. */
  function GetOrderAndName(rawName: string): (r: OrderedName)
    ensures IsSuffix(r.displayName, rawName)
  {
    if rawName == "" then OrderedName(IntMax, rawName)
    else
      var trimmed := TrimStart(rawName);
      var dot := IndexOf(trimmed, '.');
      if dot > 0 then
        match TryParseInt32(trimmed[..dot])
        case Some(num) =>
          OrderRestIsSuffix(rawName, dot);
          OrderedName(num, TrimStart(trimmed[dot + 1..]))
        case None => OrderedName(IntMax, rawName)
      else OrderedName(IntMax, rawName)
  }

  /** GetOrderAndName either finds no prefix or reads an ordering prefix that is there. */
  lemma OrderAndNameSound(raw: string)
    ensures GetOrderAndName(raw) == OrderedName(IntMax, raw)
      || HasOrderPrefix(raw, GetOrderAndName(raw).order, GetOrderAndName(raw).displayName)
  {
    if raw != "" {
      var t := TrimStart(raw);
      var dot := IndexOf(t, '.');
      if dot > 0 && TryParseInt32(t[..dot]).Some? {
        NotInPrefix(t, '.', dot);
        assert OrderPrefixAt(t, dot, GetOrderAndName(raw).order, GetOrderAndName(raw).displayName);
      }
    }
  }

  /** Whenever the name has an ordering prefix, GetOrderAndName returns exactly it. */
  lemma OrderPrefixIsRead(raw: string, n: int, rest: string)
    requires HasOrderPrefix(raw, n, rest)
    ensures GetOrderAndName(raw) == OrderedName(n, rest)
  {
    var i :| OrderPrefixAt(TrimStart(raw), i, n, rest);
    OrderPrefixAtIsRead(raw, i, n, rest);
  }

  lemma OrderPrefixAtIsRead(raw: string, i: int, n: int, rest: string)
    requires OrderPrefixAt(TrimStart(raw), i, n, rest)
    ensures GetOrderAndName(raw) == OrderedName(n, rest)
  {
    var t := TrimStart(raw);
    IndexOfFirst(t, '.', i);
    OrderedAtDot(raw, i);
  }

  /** GetOrderAndName when the first '.' of the left-trimmed name is at position dot > 0
      and the text before it parses. */
  lemma OrderedAtDot(raw: string, dot: int)
    requires raw != "" && dot > 0 && dot == IndexOf(TrimStart(raw), '.')
    requires TryParseInt32(TrimStart(raw)[..dot]).Some?
    ensures GetOrderAndName(raw)
      == OrderedName(TryParseInt32(TrimStart(raw)[..dot]).value, TrimStart(TrimStart(raw)[dot + 1..]))
  {
  }

  /** Int32.ToString writes an optional '-' and digits. */
  lemma IntToStringShape(n: int)
    ensures var p := IntToString(n);
      p != [] && !IsWhiteSpace(p[0]) && forall k :: 0 <= k < |p| ==> p[k] != '.'
  {
    if n < 0 {
      var p := IntToString(n);
      forall k | 1 <= k < |p|
        ensures p[k] != '.'
      {
        assert p[k] == Decimal(-n)[k - 1];
      }
    }
  }

  /** Writing "N." in front of a name and reading it back gives N and the name. */
  lemma OrderPrefixRoundTrip(n: int, name: string)
    requires IntMin <= n <= IntMax
    ensures GetOrderAndName(IntToString(n) + "." + name) == OrderedName(n, TrimStart(name))
  {
    var p := IntToString(n);
    var raw := p + "." + name;
    IntToStringShape(n);
    assert raw[0] == p[0];
    TrimStartOfTrimmed(raw);
    assert raw[..|p|] == p;
    assert raw[|p| + 1..] == name;
    ParseIntToString(n);
    assert OrderPrefixAt(raw, |p|, n, TrimStart(name));
    OrderPrefixIsRead(raw, n, TrimStart(name));
  }

  /** A name without '.' has no explicit order. */
  lemma NoDotNoOrder(raw: string)
    requires '.' !in raw
    ensures GetOrderAndName(raw) == OrderedName(IntMax, raw)
  {
    var t := TrimStart(raw);
    forall k | 0 <= k < |t|
      ensures t[k] != '.'
    {
      assert t[k] == raw[|raw| - |t| + k];
    }
  }

  /** GetDisplayName: the display part of GetOrderAndName. */
  function GetDisplayName(rawName: string): (r: string)
    ensures IsSuffix(r, rawName)
  {
    GetOrderAndName(rawName).displayName
  }

  /** The hexadecimal digits of `#RRGGBB` at position h, as a colour. */
  function ColorAt(name: string, h: nat): Color32
    requires h + 7 <= |name| && AllHex(name[h + 1..h + 7])
  {
    var hex := name[h + 1..h + 7];
    Color32(HexByte(hex[0..2]), HexByte(hex[2..4]), HexByte(hex[4..6]), 0xFF)
  }

  /** TryParseColorFromName: "Color" (any case) at the start, and six hexadecimal digits
      right after the FIRST '#'; anything may follow them. */
  function TryParseColorFromName(name: string): (r: ColorParse)
    ensures !r.ok ==> r.color == BackColor
    ensures r.ok ==> StartsWithIgnoreCase(name, ColorWord) && r.color.a == 0xFF
  {
    if name == "" then ColorParse(false, BackColor)
    else if !StartsWithIgnoreCase(name, ColorWord) then ColorParse(false, BackColor)
    else
      var h := IndexOf(name, '#');
      if h < 0 || h + 7 > |name| then ColorParse(false, BackColor)
      else if !AllHex(name[h + 1..h + 7]) then ColorParse(false, BackColor)
      else ColorParse(true, ColorAt(name, h))
  }

  /** Acceptance depends on the first '#' only, and the colour is read from it. */
  lemma ColorFromFirstHash(name: string, h: nat)
    requires h < |name| && name[h] == '#' && '#' !in name[..h]
    ensures TryParseColorFromName(name).ok
      <==> StartsWithIgnoreCase(name, ColorWord) && h + 7 <= |name| && AllHex(name[h + 1..h + 7])
    ensures TryParseColorFromName(name).ok ==> TryParseColorFromName(name).color == ColorAt(name, h)
  {
    NotInPrefix(name, '#', h);
    IndexOfFirst(name, '#', h);
  }

  /** Without a '#' there is no colour. */
  lemma ColorNeedsHash(name: string)
    requires '#' !in name
    ensures TryParseColorFromName(name) == ColorParse(false, BackColor)
  {
  }

  /** The marker name written for a colour is read back as that colour. */
  lemma ColorMarkerRoundTrip(prefix: string, caption: string, c: Color32, suffix: string)
    requires EqualsIgnoreCase(prefix, ColorWord) && '#' !in caption && c.a == 0xFF
    ensures TryParseColorFromName(prefix + caption + "#" + Hex2(c.r) + Hex2(c.g) + Hex2(c.b) + suffix)
      == ColorParse(true, c)
  {
    var name := prefix + caption + "#" + Hex2(c.r) + Hex2(c.g) + Hex2(c.b) + suffix;
    var h := |prefix| + |caption|;
    assert |prefix| == 5 by {
      assert |UpperAll(prefix)| == |UpperAll(ColorWord)|;
    }
    assert name[..5] == prefix;
    assert name[h] == '#';
    forall k | 0 <= k < 5
      ensures prefix[k] != '#'
    {
      assert UpperAll(prefix)[k] == UpperAll(ColorWord)[k];
    }
    assert name[..h] == prefix + caption;
    assert name[h + 1..h + 3] == Hex2(c.r);
    assert name[h + 3..h + 5] == Hex2(c.g);
    assert name[h + 5..h + 7] == Hex2(c.b);
    assert name[h + 1..h + 7] == Hex2(c.r) + Hex2(c.g) + Hex2(c.b);
    ColorFromFirstHash(name, h);
  }

  /** IsPostFolder: `^Post\.[0-9]+\b`, i.e. "Post." and a run of digits that is not
      followed by a word character. */
  predicate IsPostFolder(name: string) {
    |name| > 5 && name[..5] == "Post." && IsDigit(name[5])
    && var n := 5 + DigitRun(name[5..]); n == |name| || !IsWordChar(name[n])
  }

  lemma {:induction false} DigitRunOfDigits(a: string, b: string)
    requires AllDigits(a) && (b == [] || !IsDigit(b[0]))
    ensures DigitRun(a + b) == |a|
  {
    if a == [] {
      assert a + b == b;
    } else {
      assert (a + b)[1..] == a[1..] + b;
      DigitRunOfDigits(a[1..], b);
    }
  }

  /** "Post." and a number is a post folder exactly when the number is followed by the
      end of the name or by a character that is not a word character. */
  lemma PostFolderPrefix(n: nat, rest: string)
    requires rest == [] || !IsDigit(rest[0])
    ensures IsPostFolder("Post." + Decimal(n) + rest) <==> rest == [] || !IsWordChar(rest[0])
  {
    var d := Decimal(n);
    var name := "Post." + d + rest;
    assert |name| > 5 && name[..5] == "Post." && IsDigit(name[5]) by {
      assert name[5] == d[0];
    }
    assert DigitRun(name[5..]) == |d| by {
      assert name[5..] == d + rest;
      DigitRunOfDigits(d, rest);
    }
    if rest != [] {
      assert name[5 + |d|] == rest[0];
    } else {
      assert |name| == 5 + |d|;
    }
  }

  /** `^Post\.([0-9]+)(?:\s+(.*))?$`, the full post-folder pattern. `.` stops at a line
      feed and `$` also matches before a final line feed. */
  function PostFolderMatch(name: string): (r: Option<PostName>)
    ensures r.Some? ==> IsPostFolder(name) && r.value.digits != "" && AllDigits(r.value.digits)
  {
    if !(|name| > 5 && name[..5] == "Post." && IsDigit(name[5])) then None
    else
      var rest := name[5..];
      var d := DigitRun(rest);
      var t := rest[d..];
      if t == [] then Some(PostName(rest[..d], ""))
      else if !IsWhiteSpace(t[0]) then None
      else
        assert name[5 + d] == t[0];
        var u := t[WhiteRun(t)..];
        var j := IndexOf(u, '\n');
        if j < 0 then Some(PostName(rest[..d], u))
        else if j == |u| - 1 then Some(PostName(rest[..d], u[..j]))
        else None
  }

  /** The post a matching folder name describes: int.Parse of the digits (None when it
      overflows) and the trimmed title, "Post N" when that is empty. */
  function ReadPostName(pm: PostName): (r: Option<PostHeader>)
    ensures r.Some? ==> r.value.title != ""
  {
    match TryParseInt32(pm.digits)
    case None => None
    case Some(n) =>
      var title := Trim(pm.title);
      Some(PostHeader(n, if title == "" then "Post " + IntToString(n) else title))
  }

  /** The digits of `^Post\.([0-9]+)`, used to find the post a descriptor belongs to. */
  function PostNumberDigits(name: string): (r: string)
    requires IsPostFolder(name)
    ensures r != "" && AllDigits(r)
  {
    assert name[5..5 + DigitRun(name[5..])] == name[5..][..DigitRun(name[5..])];
    name[5..5 + DigitRun(name[5..])]
  }

  /** A post folder name "Post.N" or "Post.N title". */
  function PostFolderName(n: nat, title: string): string {
    "Post." + Decimal(n) + (if title == "" then "" else " " + title)
  }

  /** "Post." + N + tail splits into its parts. */
  lemma PostNameParts(n: nat, tail: string)
    requires tail == [] || !IsDigit(tail[0])
    ensures var name := "Post." + Decimal(n) + tail;
      |name| > 5 && name[..5] == "Post." && IsDigit(name[5])
      && DigitRun(name[5..]) == |Decimal(n)|
      && name[5..][..|Decimal(n)|] == Decimal(n) && name[5..][|Decimal(n)|..] == tail
  {
    var name := "Post." + Decimal(n) + tail;
    assert name[5..] == Decimal(n) + tail;
    assert name[5] == Decimal(n)[0];
    DigitRunOfDigits(Decimal(n), tail);
  }

  /** The white space after the number is skipped and the title starts. */
  lemma TitleAfterSpace(title: string)
    ensures (" " + title)[WhiteRun(" " + title)..] == TrimStart(title)
    ensures Trim(TrimStart(title)) == Trim(title)
  {
    assert TrimStart(" " + title) == (" " + title)[WhiteRun(" " + title)..];
    assert AllWhite(" ");
    TrimStartLeadingWhite(" ", title);
    TrimStartOfTrimmed(TrimStart(title));
  }

  lemma InfixKeepsAbsent(s: string, i: nat, c: char)
    requires i <= |s| && c !in s
    ensures c !in s[i..]
  {
    forall k | i <= k < |s|
      ensures s[k] != c
    {
    }
  }

  /** A post folder name built from a number and a one-line title is matched and read back
      as that number and the trimmed title. */
  lemma PostFolderRoundTrip(n: nat, title: string)
    requires n <= IntMax && '\n' !in title
    ensures PostFolderMatch(PostFolderName(n, title)).Some?
    ensures ReadPostName(PostFolderMatch(PostFolderName(n, title)).value)
      == Some(PostHeader(n, if Trim(title) == "" then "Post " + Decimal(n) else Trim(title)))
  {
    var tail := if title == "" then "" else " " + title;
    assert PostFolderName(n, title) == "Post." + Decimal(n) + tail;
    PostNameParts(n, tail);
    ParseIntToString(n);
    if title == "" {
      assert PostFolderMatch(PostFolderName(n, title)) == Some(PostName(Decimal(n), ""));
    } else {
      TitleAfterSpace(title);
      var u := TrimStart(title);
      InfixKeepsAbsent(title, |title| - |u|, '\n');
      assert PostFolderMatch(PostFolderName(n, title)) == Some(PostName(Decimal(n), u));
    }
  }

  /** Path.GetExtension for a single path segment: from the last '.' on, or "" when there
      is no '.' or it is the last character. */
  function Extension(fileName: string): (r: string)
    ensures IsSuffix(r, fileName)
    ensures r == "" || (|r| >= 2 && r[0] == '.' && '.' !in r[1..])
    ensures r == "" <==> '.' !in fileName || fileName[|fileName| - 1] == '.'
  {
    var i := LastIndexOf(fileName, '.');
    if i < 0 || i == |fileName| - 1 then "" else fileName[i..]
  }

  /** Path.GetFileNameWithoutExtension for a single path segment: everything before the
      last '.', or the whole name when there is none. */
  function WithoutExtension(fileName: string): (r: string)
    ensures |r| <= |fileName| && r == fileName[..|r|]
    ensures '.' in fileName ==> |r| < |fileName| && fileName[|r|] == '.' && '.' !in fileName[|r| + 1..]
    ensures '.' !in fileName ==> r == fileName
  {
    var i := LastIndexOf(fileName, '.');
    if i < 0 then fileName else fileName[..i]
  }

  /** The two halves a name is cut into at its last '.': the name without its extension,
      followed by the extension, is the name again, unless the '.' ends the name. */
  lemma ExtensionSplitsName(fileName: string)
    ensures Extension(fileName) != "" ==> WithoutExtension(fileName) + Extension(fileName) == fileName
    ensures Extension(fileName) == "" && '.' in fileName ==> WithoutExtension(fileName) + "." == fileName
  {
    var i := LastIndexOf(fileName, '.');
    if i >= 0 {
      assert fileName[..i] + fileName[i..] == fileName;
    }
  }

  /** The extension check of ParseTree: png, jpg, jpeg or gif in any case. */
  predicate IsImageFile(fileName: string) {
    var e := LowerAll(Extension(fileName));
    e == ".png" || e == ".jpg" || e == ".jpeg" || e == ".gif"
  }

  /** `^[0-9]+\s*\.\s*Button` with RegexOptions.IgnoreCase. */
  predicate NumberedButtonPrefix(s: string) {
    var d := DigitRun(s);
    d > 0 &&
    var a := s[d..];
    var b := a[WhiteRun(a)..];
    b != [] && b[0] == '.' &&
    var c := b[1..];
    StartsWithIgnoreCase(c[WhiteRun(c)..], ButtonWord)
  }

  /** IsButtonFile: a ".txt" file (any case) whose name starts with "Button" (any case),
      or with digits, '.', and "Button". */
  predicate IsButtonFile(fileName: string) {
    fileName != "" && LowerAll(Extension(fileName)) == ".txt" &&
    var n := WithoutExtension(fileName);
    StartsWithIgnoreCase(n, ButtonWord) || NumberedButtonPrefix(n)
  }

  /** `#([0-9A-Fa-f]{6})\b` matches at position i. */
  predicate ColorTagAt(s: string, i: nat) {
    i + 7 <= |s| && s[i] == '#' && AllHex(s[i + 1..i + 7]) && (i + 7 == |s| || !IsWordChar(s[i + 7]))
  }

  /** The leftmost colour tag at or after position from. */
  function FindColorTag(s: string, from: nat): (r: Option<nat>)
    ensures r.Some? ==> from <= r.value && ColorTagAt(s, r.value)
    ensures r.Some? ==> forall k :: from <= k < r.value ==> !ColorTagAt(s, k)
    ensures r.None? ==> forall k :: from <= k ==> !ColorTagAt(s, k)
    decreases |s| - from
  {
    if from + 7 > |s| then None
    else if ColorTagAt(s, from) then Some(from)
    else FindColorTag(s, from + 1)
  }

  /** The colour annotation step of ParseButtonName: every copy of the first `#RRGGBB`
      tag is removed and the result trimmed; a string without a tag is kept as it is. */
  function StripColorTag(s: string): (r: string)
    ensures '#' !in s ==> r == s
  {
    match FindColorTag(s, 0)
    case None => s
    case Some(i) => Trim(ReplaceAll(s, s[i..i + 7], ""))
  }

  /** The label after a leading "N.": a "Button" word and a colour tag are dropped. */
  function LabelAfterOrder(rest: string): string {
    var r := TrimStart(rest);
    StripColorTag(if StartsWithIgnoreCase(r, ButtonWord) then TrimStart(r[6..]) else r)
  }

  /** The order and label after a leading "Button": a colour tag is dropped first. */
  function OrderAfterButton(nameNoExt: string): OrderedName
    requires |nameNoExt| >= 6
  {
    GetOrderAndName(StripColorTag(TrimStart(nameNoExt[6..])))
  }

  /** ParseButtonName: the label and order of a button descriptor. A leading "N." gives
      the order, then "Button" and a colour tag are dropped from the label; otherwise the
      name must start with "Button", and an "N." after it gives the order. */
  function ParseButtonName(fileName: string): (r: ButtonName)
    ensures r.displayName != ""
  {
    ParseButtonStem(WithoutExtension(fileName))
  }

  /** ParseButtonName on the name without its extension. */
  function ParseButtonStem(nameNoExt: string): (r: ButtonName)
    ensures r.displayName != ""
  {
    var head := GetOrderAndName(nameNoExt);
    if head.order != IntMax then
      var caption := LabelAfterOrder(head.displayName);
      ButtonName(if caption == "" then "Link" else caption, head.order)
    else if !StartsWithIgnoreCase(nameNoExt, ButtonWord) then ButtonName("Link", IntMax)
    else
      var inner := OrderAfterButton(nameNoExt);
      ButtonName(if inner.displayName == "" then "Link" else inner.displayName, inner.order)
  }


  /** A name with a ".txt" extension in any case appended has that extension, and dropping
      it gives the name back. */
  lemma TxtFile(x: string, ext: string)
    requires ext == ".txt" || ext == ".TXT"
    ensures WithoutExtension(x + ext) == x && LowerAll(Extension(x + ext)) == ".txt"
  {
    assert LowerAll(ext) == ".txt";
    var s := x + ext;
    assert s[|x|] == '.';
    assert s[|x| + 1..] == ext[1..];
    assert s[..|x|] == x;
    assert s[|x|..] == ext;
  }

  /** A trimmed caption, with a colour tag after a space when there is one. */
  function Captioned(caption: string, tag: string): string {
    if tag == "" then caption else caption + " #" + tag
  }

  /** A caption without '#' keeps no colour tag, and a trailing tag is removed. */
  lemma StripTrailingTag(caption: string, tag: string)
    requires caption != "" && !IsWhiteSpace(caption[0]) && !IsWhiteSpace(caption[|caption| - 1])
    requires '#' !in caption && (tag == "" || (|tag| == 6 && AllHex(tag)))
    ensures StripColorTag(Captioned(caption, tag)) == caption
  {
    if tag != "" {
      var s := caption + " #" + tag;
      var i := |caption| + 1;
      assert s[i] == '#';
      assert s[i + 1..i + 7] == tag;
      assert ColorTagAt(s, i);
      forall k | 0 <= k < i
        ensures s[k] != '#'
      {
        if k < |caption| {
          assert s[k] == caption[k];
        }
      }
      assert FindColorTag(s, 0) == Some(i);
      assert s[i..i + 7] == "#" + tag;
      assert s == (caption + " ") + ("#" + tag);
      ReplaceAtEnd(caption + " ", "#" + tag, "");
      assert (caption + " ") + "" == caption + " ";
      assert (caption + " ")[0] == caption[0];
      TrimStartOfTrimmed(caption + " ");
      TrimEndTrailingSpace(caption);
      TrimEndOfTrimmed(caption);
    }
  }

  /** The descriptor name "N.Button caption #RRGGBB", without its ".txt". */
  function NumberedButton(n: nat, caption: string, tag: string): string {
    Decimal(n) + "." + ("Button " + Captioned(caption, tag))
  }

  /** "N.Button caption #RRGGBB.txt" is a button descriptor. */
  lemma NumberedButtonIsButtonFile(n: nat, caption: string, tag: string)
    ensures IsButtonFile(NumberedButton(n, caption, tag) + ".txt")
  {
    var x := NumberedButton(n, caption, tag);
    assert NumberedButtonPrefix(x) by {
      var body := "Button " + Captioned(caption, tag);
      assert body[..6] == "Button";
      NumberedPrefix(Decimal(n), body);
    }
    TxtFile(x, ".txt");
    assert (x + ".txt") != "";
  }

  /** "N.Button caption #RRGGBB.txt" has order N and the caption as its label; the
      colour tag is optional. */
  lemma {:induction false} NumberedButtonRoundTrip(n: nat, caption: string, tag: string)
    requires n < IntMax
    requires caption != "" && !IsWhiteSpace(caption[0]) && !IsWhiteSpace(caption[|caption| - 1])
    requires '#' !in caption && (tag == "" || (|tag| == 6 && AllHex(tag)))
    ensures ParseButtonName(NumberedButton(n, caption, tag) + ".txt") == ButtonName(caption, n)
  {
    var c := Captioned(caption, tag);
    var x := NumberedButton(n, caption, tag);
    assert WithoutExtension(x + ".txt") == x by {
      TxtFile(x, ".txt");
    }
    assert TrimStart(c) == c by {
      assert c[0] == caption[0];
      TrimStartOfTrimmed(c);
    }
    assert GetOrderAndName(x).order == n && LabelAfterOrder(GetOrderAndName(x).displayName) == caption by {
      NumberedButtonLabel(n, c);
      StripTrailingTag(caption, tag);
    }
    ParseOrdered(x + ".txt");
  }

  /** ParseButtonName on a name with an ordering prefix. */
  lemma ParseOrdered(fileName: string)
    requires GetOrderAndName(WithoutExtension(fileName)).order != IntMax
    ensures var head := GetOrderAndName(WithoutExtension(fileName));
      var caption := LabelAfterOrder(head.displayName);
      ParseButtonName(fileName) == ButtonName(if caption == "" then "Link" else caption, head.order)
  {
  }

  /** The numbered branch of ParseButtonName reads the order and drops the word "Button". */
  lemma {:induction false} NumberedButtonLabel(n: nat, c: string)
    requires n < IntMax
    ensures var r := GetOrderAndName(Decimal(n) + "." + ("Button " + c));
      r.order == n && LabelAfterOrder(r.displayName) == StripColorTag(TrimStart(c))
  {
    ButtonBodyShape(c);
    NumberedRestOrder(n, "Button " + c);
    ButtonLabel("Button " + c, c);
  }

  /** After a leading "N.", a label starting with "Button" and a space loses both. */
  lemma ButtonLabel(body: string, c: string)
    requires |body| > 6 && !IsWhiteSpace(body[0])
    requires StartsWithIgnoreCase(body, ButtonWord) && body[6..] == " " + c
    ensures LabelAfterOrder(body) == StripColorTag(TrimStart(c))
  {
    TrimStartOfTrimmed(body);
    assert TrimStart(" " + c) == TrimStart(c) by {
      assert AllWhite(" ");
      TrimStartLeadingWhite(" ", c);
    }
  }

  /** "Button " followed by a caption: the word, then the caption behind a space. */
  lemma ButtonBodyShape(c: string)
    ensures var body := "Button " + c;
      |body| > 6 && !IsWhiteSpace(body[0]) && body[..6] == ButtonWord && body[6..] == " " + c
      && StartsWithIgnoreCase(body, ButtonWord)
  {
    var body := "Button " + c;
    assert body[..6] == ButtonWord;
  }

  /** Digits, '.', and "Button" satisfy the numbered-button pattern. */
  lemma NumberedPrefix(ds: string, body: string)
    requires ds != [] && AllDigits(ds) && |body| >= 6 && body[..6] == "Button"
    ensures NumberedButtonPrefix(ds + "." + body)
  {
    var s := ds + "." + body;
    var a := "." + body;
    assert s == ds + a;
    DigitRunOfDigits(ds, a);
    assert s[|ds|..] == a;
    assert a[0] == '.';
    assert WhiteRun(a) == 0;
    assert a[1..] == body;
    assert body[0] == 'B';
    assert WhiteRun(body) == 0;
    assert body[0..] == body;
    assert UpperAll(body[..6]) == UpperAll("Button");
  }

  /** The descriptor name "Button N.caption", without its ".txt". */
  function ButtonNumbered(n: nat, caption: string): string {
    "Button " + (Decimal(n) + "." + caption)
  }

  /** "Button N.caption.txt" is a button descriptor. */
  lemma ButtonNumberedIsButtonFile(n: nat, caption: string)
    ensures IsButtonFile(ButtonNumbered(n, caption) + ".txt")
  {
    var x := ButtonNumbered(n, caption);
    assert StartsWithIgnoreCase(x, ButtonWord) by {
      assert x[..6] == "Button";
    }
    TxtFile(x, ".txt");
    assert (x + ".txt") != "";
  }

  /** "Button N.caption.txt" has order N and the caption as its label. */
  lemma ButtonNumberRoundTrip(n: nat, caption: string)
    requires n <= IntMax && caption != "" && !IsWhiteSpace(caption[0]) && '#' !in caption
    ensures ParseButtonName(ButtonNumbered(n, caption) + ".txt") == ButtonName(caption, n)
  {
    var x := ButtonNumbered(n, caption);
    assert WithoutExtension(x + ".txt") == x by {
      TxtFile(x, ".txt");
    }
    ButtonNumberedHead(n, caption);
    ButtonNumberedOrder(n, caption);
  }

  /** "Button N.caption" starts with "Button" and has no ordering prefix. */
  lemma ButtonNumberedHead(n: nat, caption: string)
    ensures GetOrderAndName(ButtonNumbered(n, caption)).order == IntMax
    ensures StartsWithIgnoreCase(ButtonNumbered(n, caption), ButtonWord)
  {
    NoOrderBeforeButton(ButtonNumbered(n, caption), Decimal(n) + "." + caption);
    StartsWithButton(Decimal(n) + "." + caption);
  }

  lemma StartsWithButton(rest: string)
    ensures StartsWithIgnoreCase("Button " + rest, ButtonWord)
  {
    var x := "Button " + rest;
    assert x[..6] == "Button";
  }

  /** After "Button " come the number and the caption. */
  lemma ButtonNumberedOrder(n: nat, caption: string)
    requires n <= IntMax && caption != "" && !IsWhiteSpace(caption[0]) && '#' !in caption
    ensures |ButtonNumbered(n, caption)| >= 6
    ensures OrderAfterButton(ButtonNumbered(n, caption)) == OrderedName(n, caption)
  {
    ButtonNumberedTail(n, caption);
    NumberedRest(n, caption);
    SpaceThenTrimmed(Decimal(n) + "." + caption);
  }

  /** "N.caption" starts with a digit, has no colour tag, and reads as order N with the
      caption. */
  lemma NumberedRest(n: nat, caption: string)
    requires n <= IntMax && caption != "" && !IsWhiteSpace(caption[0]) && '#' !in caption
    ensures var rest := Decimal(n) + "." + caption;
      rest != "" && !IsWhiteSpace(rest[0])
      && StripColorTag(rest) == rest && GetOrderAndName(rest) == OrderedName(n, caption)
  {
    NumberedRestHead(n, caption);
    NumberedRestUntagged(n, caption);
    NumberedRestOrder(n, caption);
  }

  lemma NumberedRestHead(n: nat, caption: string)
    ensures var rest := Decimal(n) + "." + caption;
      rest != "" && !IsWhiteSpace(rest[0])
  {
    var rest := Decimal(n) + "." + caption;
    assert rest[0] == Decimal(n)[0];
    assert IsDigit(Decimal(n)[0]);
  }

  lemma NumberedRestUntagged(n: nat, caption: string)
    requires '#' !in caption
    ensures '#' !in Decimal(n) + "." + caption
  {
    var d := Decimal(n);
    assert '#' !in d by {
      assert forall k :: 0 <= k < |d| ==> IsDigit(d[k]);
    }
    assert d + "." + caption == d + ("." + caption);
  }

  lemma NumberedRestOrder(n: nat, caption: string)
    requires n <= IntMax && caption != "" && !IsWhiteSpace(caption[0])
    ensures GetOrderAndName(Decimal(n) + "." + caption) == OrderedName(n, caption)
  {
    assert IntToString(n) == Decimal(n);
    OrderPrefixRoundTrip(n, caption);
    TrimStartOfTrimmed(caption);
  }

  /** A space before a string that starts with no white space is trimmed away. */
  lemma SpaceThenTrimmed(rest: string)
    requires rest != "" && !IsWhiteSpace(rest[0])
    ensures TrimStart(" " + rest) == rest
  {
    assert AllWhite(" ");
    TrimStartLeadingWhite(" ", rest);
    TrimStartOfTrimmed(rest);
  }

  lemma ButtonNumberedTail(n: nat, caption: string)
    ensures |ButtonNumbered(n, caption)| >= 6
    ensures ButtonNumbered(n, caption)[6..] == " " + (Decimal(n) + "." + caption)
  {
    var rest := Decimal(n) + "." + caption;
    assert ButtonNumbered(n, caption) == "Button" + (" " + rest);
    SplitAt("Button", " " + rest);
  }

  /** A name starting "Button " has no ordering prefix before the word. */
  lemma NoOrderBeforeButton(x: string, rest: string)
    requires x == "Button " + rest
    ensures GetOrderAndName(x).order == IntMax
  {
    assert x[0] == 'B';
    TrimStartOfTrimmed(x);
    var dot := IndexOf(x, '.');
    if dot > 0 {
      assert x[..dot][0] == 'B';
      ParseRejectsFirst(x[..dot]);
    }
  }


  /** A descriptor with neither an order prefix nor a leading "Button" is a plain link. */
  lemma UnnamedButtonIsLink(fileName: string)
    requires GetOrderAndName(WithoutExtension(fileName)).order == IntMax
    requires !StartsWithIgnoreCase(WithoutExtension(fileName), ButtonWord)
    ensures ParseButtonName(fileName) == ButtonName("Link", IntMax)
  {
  }

  // ---------------------------------------------------------------------------------
  // Button descriptor names, built and read back

  /** A first character no number starts with: neither a digit nor a sign. */
  predicate Unsigned(c: char) {
    !IsDigit(c) && c != '+' && c != '-'
  }

  /** An order, caption and colour tag a descriptor name can carry and ParseButtonName read
      back: the order is IntMax (none) or a number below it; the caption is trimmed,
      free of '#', and, without an order, does not begin like a number; the tag is six hex
      digits or absent (""). */
  predicate WellFormedButton(order: int, caption: string, tag: string) {
    0 <= order <= IntMax
    && caption != "" && !IsWhiteSpace(caption[0]) && !IsWhiteSpace(caption[|caption| - 1])
    && '#' !in caption && (tag == "" || (|tag| == 6 && AllHex(tag)))
    && (order == IntMax ==> Unsigned(caption[0]))
  }

  /** The descriptor file name of a button: "N.Button caption #tag.txt" with an order,
      "Button caption #tag.txt" without one. */
  function FormatButtonName(order: nat, caption: string, tag: string): string {
    (if order == IntMax then "Button " + Captioned(caption, tag) else NumberedButton(order, caption, tag))
      + ".txt"
  }

  /** Every well-formed order, caption and tag survive the trip through a descriptor name:
      the name is a button descriptor, and ParseButtonName reads the order and the caption
      back. */
  lemma FormatButtonRoundTrip(order: nat, caption: string, tag: string)
    requires WellFormedButton(order, caption, tag)
    ensures var f := FormatButtonName(order, caption, tag);
      IsButtonFile(f) && ParseButtonName(f) == ButtonName(caption, order)
  {
    if order == IntMax {
      PlainButtonIsButtonFile(caption, tag);
      PlainButtonRoundTrip(caption, tag);
    } else {
      NumberedButtonIsButtonFile(order, caption, tag);
      NumberedButtonRoundTrip(order, caption, tag);
    }
  }

  /** The converse does not hold: ParseButtonName forgets how the name was spelled, so a
      button descriptor is not in general the name built from what it parses to. Here the
      ".TXT" spelling of a built name parses the same and is a different name. */
  lemma ParseButtonNameForgetsSpelling(order: nat, caption: string, tag: string)
    requires WellFormedButton(order, caption, tag)
    ensures var f := FormatButtonName(order, caption, tag);
      var g := f[..|f| - 4] + ".TXT";
      g != f && IsButtonFile(g) && ParseButtonName(g) == ParseButtonName(f)
  {
    var f := FormatButtonName(order, caption, tag);
    FormatButtonRoundTrip(order, caption, tag);
    var x := f[..|f| - 4];
    assert f == x + ".txt";
    TxtFile(x, ".txt");
    TxtFile(x, ".TXT");
    assert (x + ".TXT")[|x| + 1] != f[|x| + 1];
    assert IsButtonFile(x + ".TXT") by {
      assert x + ".TXT" != "";
    }
    SameStem(f, x + ".TXT");
  }

  /** Two file names with the same name before the extension parse alike. */
  lemma SameStem(f: string, g: string)
    requires WithoutExtension(f) == WithoutExtension(g)
    ensures ParseButtonName(f) == ParseButtonName(g)
  {
  }

  /** A caption that starts with neither white space, a digit nor a sign has no ordering
      prefix. */
  lemma UnnumberedLabel(caption: string)
    requires caption != "" && !IsWhiteSpace(caption[0])
    requires Unsigned(caption[0])
    ensures GetOrderAndName(caption) == OrderedName(IntMax, caption)
  {
    TrimStartOfTrimmed(caption);
    var dot := IndexOf(caption, '.');
    if dot > 0 {
      assert caption[..dot][0] == caption[0];
      ParseRejectsFirst(caption[..dot]);
    }
  }

  /** "Button caption #tag.txt" is a button descriptor. */
  lemma PlainButtonIsButtonFile(caption: string, tag: string)
    ensures IsButtonFile("Button " + Captioned(caption, tag) + ".txt")
  {
    var x := "Button " + Captioned(caption, tag);
    StartsWithButton(Captioned(caption, tag));
    TxtFile(x, ".txt");
    assert (x + ".txt") != "";
  }

  /** "Button caption #tag.txt" has no order and the caption as its label. */
  lemma PlainButtonRoundTrip(caption: string, tag: string)
    requires WellFormedButton(IntMax, caption, tag)
    ensures ParseButtonName("Button " + Captioned(caption, tag) + ".txt") == ButtonName(caption, IntMax)
  {
    var x := "Button " + Captioned(caption, tag);
    assert WithoutExtension(x + ".txt") == x by {
      TxtFile(x, ".txt");
    }
    NoOrderBeforeButton(x, Captioned(caption, tag));
    StartsWithButton(Captioned(caption, tag));
    PlainButtonOrder(caption, tag);
  }

  /** After "Button " come the caption and the tag, which read as no order and the
      caption. */
  lemma PlainButtonOrder(caption: string, tag: string)
    requires WellFormedButton(IntMax, caption, tag)
    ensures var x := "Button " + Captioned(caption, tag);
      |x| >= 6 && OrderAfterButton(x) == OrderedName(IntMax, caption)
  {
    var c := Captioned(caption, tag);
    var x := "Button " + c;
    assert x[6..] == " " + c by {
      assert x == "Button" + (" " + c);
      SplitAt("Button", " " + c);
    }
    assert c != "" && c[0] == caption[0];
    SpaceThenTrimmed(c);
    StripTrailingTag(caption, tag);
    UnnumberedLabel(caption);
  }
}
