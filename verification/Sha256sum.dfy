/** SHA-256 manifests (src/sha256sum.rs). A character is a Unicode scalar value. The
    source measures lengths in UTF-8 bytes, but only of text it has found to be
    hexadecimal digits, where a character is a byte. */
module Sha256sum {
  import opened Prelude

  datatype Entry = Entry(hex: string, name: string)

  datatype Parsed = Parsed(entries: seq<Entry>, skipped: nat)

  /** What one line of a manifest is. */
  datatype Line = Ignored | Skipped | Listed(entry: Entry)

  // ── Characters ──────────────────────────────────────────────────────────────

  /** The Unicode White_Space property, which `trim` uses. */
  predicate IsSpace(ch: char) {
    var u := ch as int;
    || 0x9 <= u <= 0xD || u == 0x20 || u == 0x85 || u == 0xA0 || u == 0x1680 || 0x2000 <= u <= 0x200A
    || u == 0x2028 || u == 0x2029 || u == 0x202F || u == 0x205F || u == 0x3000
  }

  /** The code points Unicode gives that property, one by one. */
  const WHITE_SPACE :=
    "\U{0009}\U{000A}\U{000B}\U{000C}\U{000D}\U{0020}\U{0085}\U{00A0}\U{1680}\U{2000}\U{2001}\U{2002}\U{2003}"
    + "\U{2004}\U{2005}\U{2006}\U{2007}\U{2008}\U{2009}\U{200A}\U{2028}\U{2029}\U{202F}\U{205F}\U{3000}"

  lemma SpaceIff(ch: char)
    ensures IsSpace(ch) <==> ch in WHITE_SPACE
  {
  }

  predicate IsHexDigit(ch: char) {
    '0' <= ch <= '9' || 'a' <= ch <= 'f' || 'A' <= ch <= 'F'
  }

  function LowerChar(ch: char): char {
    if 'A' <= ch <= 'Z' then (ch as int + 32) as char else ch
  }

  /** `to_ascii_lowercase`. */
  function Lower(s: string): (l: string)
    ensures |l| == |s|
  {
    seq(|s|, i requires 0 <= i < |s| => LowerChar(s[i]))
  }

  /** Two characters have one lower case exactly if they are the same, or a Latin letter
      in its two cases; what is in lower case stays. */
  lemma LowerIsCaseOnly(a: char, b: char)
    ensures LowerChar(a) == LowerChar(b) <==>
            a == b || ('A' <= a <= 'Z' && b as int == a as int + 32) || ('A' <= b <= 'Z' && a as int == b as int + 32)
    ensures !('A' <= LowerChar(a) <= 'Z') && LowerChar(LowerChar(a)) == LowerChar(a)
  {
  }

  function TrimStart(s: string): string {
    if s != "" && IsSpace(s[0]) then TrimStart(s[1..]) else s
  }

  function TrimEnd(s: string): string {
    if s != "" && IsSpace(s[|s| - 1]) then TrimEnd(s[..|s| - 1]) else s
  }

  function Trim(s: string): string {
    TrimEnd(TrimStart(s))
  }

  // ── Lines ───────────────────────────────────────────────────────────────────

  function StripCr(s: string): string {
    if s != "" && s[|s| - 1] == '\r' then s[..|s| - 1] else s
  }

  /** `str::lines`: the last line's end is optional, and `\r\n` ends a line too. */
  function Lines(text: string): seq<string> {
    if text == "" then []
    else
      match Find(text, "\n")
      case None => [text]
      case Some(i) => [StripCr(text[..i])] + Lines(text[i + 1..])
  }

  predicate OccursAt(s: string, p: string, i: nat) {
    i + |p| <= |s| && s[i..i + |p|] == p
  }

  predicate Occurs(s: string, p: string) {
    exists i :: 0 <= i <= |s| && OccursAt(s, p, i)
  }

  /** `str::find`: the first occurrence. */
  function Find(s: string, p: string): (r: Option<nat>)
    ensures r.None? ==> !Occurs(s, p)
    ensures r.Some? ==> OccursAt(s, p, r.value) && forall j :: 0 <= j < r.value ==> !OccursAt(s, p, j)
  {
    FindFrom(s, p, 0)
  }

  function FindFrom(s: string, p: string, from: nat): (r: Option<nat>)
    requires from <= |s|
    ensures r.None? ==> forall j :: from <= j <= |s| ==> !OccursAt(s, p, j)
    ensures r.Some? ==>
              from <= r.value && OccursAt(s, p, r.value) && forall j :: from <= j < r.value ==> !OccursAt(s, p, j)
    decreases |s| - from
  {
    if OccursAt(s, p, from) then Some(from)
    else if from == |s| then None
    else FindFrom(s, p, from + 1)
  }

  // ── Parsing ─────────────────────────────────────────────────────────────────

  const DIGEST_CHARS: nat := 64
  const BSD_PREFIX := "SHA256 ("
  const BSD_CLOSE := ") = "

  predicate IsHexDigest(s: string) {
    |s| == DIGEST_CHARS && forall i :: 0 <= i < |s| ==> IsHexDigit(s[i])
  }

  /** `parse_gnu_line`. */
  function ParseGnu(line: string): Option<Entry> {
    if |line| < DIGEST_CHARS + 1 || !IsHexDigest(line[..DIGEST_CHARS]) then None
    else
      var remainder := TrimStart(line[DIGEST_CHARS..]);
      if remainder == "" then None
      else Some(Entry(Lower(line[..DIGEST_CHARS]), if remainder[0] == '*' then remainder[1..] else remainder))
  }

  /** `parse_bsd_line`. */
  function ParseBsd(line: string): Option<Entry> {
    if !(BSD_PREFIX <= line) then None
    else
      var rest := line[|BSD_PREFIX|..];
      match Find(rest, BSD_CLOSE)
      case None => None
      case Some(close) =>
        var hex := Trim(rest[close + 4..]);
        if IsHexDigest(hex) then Some(Entry(Lower(hex), rest[..close])) else None
  }

  /** `parse_manifest_line`. */
  function ParseLine(line: string): Option<Entry> {
    match ParseGnu(line)
    case Some(e) => Some(e)
    case None => ParseBsd(line)
  }

  /** One turn of the loop of `parse_sha256_manifest_text`. */
  function Classify(raw: string): Line {
    var line := Trim(raw);
    if line == "" || line[0] == '#' || line[0] == ';' then Ignored
    else
      match ParseLine(line)
      case None => Skipped
      case Some(e) => Listed(e)
  }

  function ParseLines(lines: seq<string>): Parsed {
    if lines == [] then Parsed([], 0)
    else
      var front := ParseLines(lines[..|lines| - 1]);
      match Classify(lines[|lines| - 1])
      case Ignored => front
      case Skipped => front.(skipped := front.skipped + 1)
      case Listed(e) => front.(entries := front.entries + [e])
  }

  /** `parse_sha256_manifest_text`. */
  method ParseText(text: string) returns (parsed: Parsed)
    ensures parsed == ParseLines(Lines(text))
  {
    var lines := Lines(text);
    var entries, skipped := [], 0;
    for i := 0 to |lines|
      invariant Parsed(entries, skipped) == ParseLines(lines[..i])
    {
      assert lines[..i + 1][..i] == lines[..i];
      var line := Trim(lines[i]);
      if line == "" || line[0] == '#' || line[0] == ';' {
        continue;
      }
      var entry := ParseLine(line);
      if entry.None? {
        skipped := skipped + 1;
        continue;
      }
      entries := entries + [entry.value];
    }
    assert lines[..|lines|] == lines;
    return Parsed(entries, skipped);
  }

  function CountIgnored(lines: seq<string>): nat {
    if lines == [] then 0
    else CountIgnored(lines[..|lines| - 1]) + if Classify(lines[|lines| - 1]).Ignored? then 1 else 0
  }

  /** Every line of any text is an entry, skipped, or ignored. */
  lemma {:induction false} LinesAreAccountedFor(lines: seq<string>)
    ensures var p := ParseLines(lines); |lines| == |p.entries| + p.skipped + CountIgnored(lines)
  {
    hide Classify;
    if lines != [] {
      LinesAreAccountedFor(lines[..|lines| - 1]);
    }
  }

  // ── Hexadecimal digests ─────────────────────────────────────────────────────

  const HEX := "0123456789abcdef"

  function HexByte(b: Byte): (s: string)
    ensures |s| == 2
  {
    [HEX[b as int / 16], HEX[b as int % 16]]
  }

  function Hex(bytes: Bytes): (s: string)
    ensures |s| == 2 * |bytes|
  {
    if bytes == [] then "" else Hex(bytes[..|bytes| - 1]) + HexByte(bytes[|bytes| - 1])
  }

  /** `hex_digest`. */
  method HexDigest(bytes: Bytes) returns (out: string)
    ensures out == Hex(bytes)
  {
    out := "";
    for i := 0 to |bytes|
      invariant out == Hex(bytes[..i])
    {
      assert bytes[..i + 1][..i] == bytes[..i];
      out := out + [HEX[bytes[i] as int / 16]];
      out := out + [HEX[bytes[i] as int % 16]];
    }
    assert bytes[..|bytes|] == bytes;
  }

  /** Digits are lower-case hexadecimal, and no two byte strings share a rendering. */
  lemma {:induction false} HexIsLowerHex(bytes: Bytes)
    ensures forall i :: 0 <= i < |Hex(bytes)| ==> IsHexDigit(Hex(bytes)[i]) && !('A' <= Hex(bytes)[i] <= 'Z')
  {
    if bytes != [] {
      HexIsLowerHex(bytes[..|bytes| - 1]);
    }
  }

  lemma {:induction false} HexIsInjective(x: Bytes, y: Bytes)
    requires Hex(x) == Hex(y)
    ensures x == y
  {
    if x != [] {
      var i, j := |x| - 1, |y| - 1;
      SameEnds(Hex(x[..i]), HexByte(x[i]), Hex(y[..j]), HexByte(y[j]));
      HexIsInjective(x[..i], y[..j]);
      HexByteIsInjective(x[i], y[j]);
      assert x == x[..i] + [x[i]] && y == y[..j] + [y[j]];
    }
  }

  /** What a hexadecimal digit of either case stands for. */
  function DigitValue(ch: char): (v: nat)
    requires IsHexDigit(ch)
    ensures v < 16
  {
    if ch <= '9' then ch as int - '0' as int
    else if 'a' <= ch then ch as int - 'a' as int + 10
    else ch as int - 'A' as int + 10
  }

  /** Two digits stand for each byte, the higher one first. */
  lemma {:induction false} HexCarriesValue(bytes: Bytes, i: nat)
    requires i < |bytes|
    ensures var h := Hex(bytes);
            && IsHexDigit(h[2 * i]) && IsHexDigit(h[2 * i + 1])
            && DigitValue(h[2 * i]) * 16 + DigitValue(h[2 * i + 1]) == bytes[i] as int
  {
    var n := |bytes| - 1;
    assert Hex(bytes) == Hex(bytes[..n]) + HexByte(bytes[n]);
    if i == n {
      DigitOf(bytes[i] as int / 16);
      DigitOf(bytes[i] as int % 16);
    } else {
      HexCarriesValue(bytes[..n], i);
    }
  }

  lemma DigitOf(v: nat)
    requires v < 16
    ensures IsHexDigit(HEX[v]) && DigitValue(HEX[v]) == v
  {
  }

  /** The byte that digits 2i and 2i + 1 of a rendering stand for. */
  function ByteAt(hex: string, i: nat): nat
    requires IsHexDigest(hex) && i < 32
  {
    DigitValue(hex[2 * i]) * 16 + DigitValue(hex[2 * i + 1])
  }

  /** A manifest's digest names the bytes whose digits it spells, in either case: in
      lower case it is the rendering exactly if the values agree. */
  lemma DigestNamesBytes(hex: string, digest: Bytes)
    requires |digest| == 32 && IsHexDigest(hex)
    ensures Lower(hex) == Hex(digest) <==> forall i :: 0 <= i < 32 ==> ByteAt(hex, i) == digest[i] as int
  {
    hide ByteAt;
    forall i | 0 <= i < 32
      ensures ByteAt(hex, i) == digest[i] as int <==>
              Lower(hex)[2 * i] == Hex(digest)[2 * i] && Lower(hex)[2 * i + 1] == Hex(digest)[2 * i + 1]
    {
      PairNamesByte(hex, digest, i);
    }
    SamePairs(Lower(hex), Hex(digest));
  }

  lemma PairNamesByte(hex: string, digest: Bytes, i: nat)
    requires |digest| == 32 && IsHexDigest(hex) && i < 32
    ensures ByteAt(hex, i) == digest[i] as int <==>
            Lower(hex)[2 * i] == Hex(digest)[2 * i] && Lower(hex)[2 * i + 1] == Hex(digest)[2 * i + 1]
  {
    HexIsLowerHex(digest);
    HexCarriesValue(digest, i);
    LowerIffValue(hex[2 * i], Hex(digest)[2 * i]);
    LowerIffValue(hex[2 * i + 1], Hex(digest)[2 * i + 1]);
  }

  lemma SamePairs(s: string, t: string)
    requires |s| == |t| == 64
    ensures s == t <==> forall i :: 0 <= i < 32 ==> s[2 * i] == t[2 * i] && s[2 * i + 1] == t[2 * i + 1]
  {
    if forall i :: 0 <= i < 32 ==> s[2 * i] == t[2 * i] && s[2 * i + 1] == t[2 * i + 1] {
      forall k | 0 <= k < 64 ensures s[k] == t[k] {
        var i := k / 2;
        assert s[2 * i] == t[2 * i] && s[2 * i + 1] == t[2 * i + 1];
      }
    }
  }

  lemma LowerIffValue(ch: char, digit: char)
    requires IsHexDigit(ch) && IsHexDigit(digit) && !('A' <= digit <= 'Z')
    ensures LowerChar(ch) == digit <==> DigitValue(ch) == DigitValue(digit)
  {
  }

  lemma SameEnds(a: string, b: string, c: string, d: string)
    requires a + b == c + d && |b| == |d|
    ensures a == c && b == d
  {
    assert a == (a + b)[..|a|] && b == (a + b)[|a|..];
  }

  lemma HexByteIsInjective(x: Byte, y: Byte)
    requires HexByte(x) == HexByte(y)
    ensures x == y
  {
    assert HexByte(x)[0] == HexByte(y)[0] && HexByte(x)[1] == HexByte(y)[1];
    HexDigitsDiffer(x as int / 16, y as int / 16);
    HexDigitsDiffer(x as int % 16, y as int % 16);
  }

  lemma HexDigitsDiffer(a: nat, b: nat)
    requires a < 16 && b < 16
    ensures HEX[a] == HEX[b] ==> a == b
  {
  }

  /** A digest of 32 bytes renders to what the manifest grammar wants, and lower-casing
      keeps it. */
  lemma HexOfDigest(digest: Bytes)
    requires |digest| == 32
    ensures IsHexDigest(Hex(digest)) && Lower(Hex(digest)) == Hex(digest)
  {
    HexIsLowerHex(digest);
  }

  // ── Printing lines ──────────────────────────────────────────────────────────

  datatype Style = GnuText | GnuBinary | Bsd

  function Render(style: Style, hex: string, name: string): string {
    match style
    case GnuText => hex + "  " + name
    case GnuBinary => hex + " *" + name
    case Bsd => "SHA256 (" + name + ") = " + hex
  }

  predicate NoTrailingSpace(name: string) {
    name == "" || !IsSpace(name[|name| - 1])
  }

  /** The names a style can carry. */
  predicate Expressible(style: Style, name: string) {
    match style
    case GnuText => name != "" && !IsSpace(name[0]) && name[0] != '*' && NoTrailingSpace(name)
    case GnuBinary => NoTrailingSpace(name)
    case Bsd => !Occurs(name, BSD_CLOSE)
  }

  lemma {:induction false} TrimEndKeepsFront(front: string, s: string)
    requires front != "" && !IsSpace(front[|front| - 1])
    ensures TrimEnd(front + s) == front + TrimEnd(s)
    decreases |s|
  {
    if s == "" {
      assert front + s == front;
    } else if IsSpace(s[|s| - 1]) {
      TrimEndKeepsFront(front, s[..|s| - 1]);
      assert (front + s)[..|front + s| - 1] == front + s[..|s| - 1];
    }
  }

  lemma {:induction false} TrimEndFixes(s: string)
    ensures |TrimEnd(s)| <= |s| && (TrimEnd(s) == s <==> NoTrailingSpace(s))
    ensures TrimEnd(s) <= s && NoTrailingSpace(TrimEnd(s))
  {
    if s != "" && IsSpace(s[|s| - 1]) {
      TrimEndFixes(s[..|s| - 1]);
    }
  }

  lemma {:induction false} TrimStartFixes(s: string)
    ensures |TrimStart(s)| <= |s| && (TrimStart(s) == s <==> s == "" || !IsSpace(s[0]))
    ensures TrimStart(s) == "" || !IsSpace(TrimStart(s)[0])
  {
    if s != "" && IsSpace(s[0]) {
      TrimStartFixes(s[1..]);
    }
  }

  lemma HexDigitIsNoSpace(ch: char)
    requires IsHexDigit(ch)
    ensures !IsSpace(ch) && ch != '#' && ch != ';' && ch != 'S'
  {
  }

  /** A GNU line after trimming: digest, separator, and the trimmed name. */
  lemma GnuLine(hex: string, sep: string, name: string)
    requires IsHexDigest(hex)
    ensures Classify(hex + (sep + name)) ==
            (match ParseGnu(hex + TrimEnd(sep + name)) case None => Skipped case Some(e) => Listed(e))
  {
    hide TrimEnd, TrimStart, ParseGnu;
    var raw := hex + (sep + name);
    assert raw[0] == hex[0];
    HexDigitIsNoSpace(hex[0]);
    HexDigitIsNoSpace(hex[63]);
    TrimStartFixes(raw);
    TrimEndKeepsFront(hex, sep + name);
    var line := hex + TrimEnd(sep + name);
    assert Trim(raw) == line && line[0] == hex[0];
    assert !(BSD_PREFIX <= line) by {
      assert BSD_PREFIX[0] == 'S';
    }
  }

  /** What `ParseGnu` makes of a digest and what follows it. */
  lemma GnuAfterDigest(hex: string, tail: string)
    requires IsHexDigest(hex)
    ensures ParseGnu(hex + tail) ==
            var remainder := TrimStart(tail);
            if remainder == "" then None
            else Some(Entry(Lower(hex), if remainder[0] == '*' then remainder[1..] else remainder))
  {
    assert (hex + tail)[..DIGEST_CHARS] == hex && (hex + tail)[DIGEST_CHARS..] == tail;
    assert tail == "" ==> TrimStart(tail) == "";
  }

  /** A GNU text line gives back digest and name exactly for the names it can carry. */
  lemma GnuTextRoundTrip(hex: string, name: string)
    requires IsHexDigest(hex)
    ensures Classify(Render(GnuText, hex, name)) == Listed(Entry(Lower(hex), name)) <==> Expressible(GnuText, name)
  {
    hide TrimEnd, TrimStart, ParseGnu, Classify, Lower;
    assert Render(GnuText, hex, name) == hex + ("  " + name);
    GnuLine(hex, "  ", name);
    GnuAfterDigest(hex, TrimEnd("  " + name));
    SpacesThenName(name);
    TrimEndFixes(name);
    TrimStartFixes(TrimEnd(name));
  }

  /** Trimming two spaces and a name leaves the name trimmed at both ends. */
  lemma SpacesThenName(name: string)
    ensures TrimStart(TrimEnd("  " + name)) == TrimStart(TrimEnd(name))
  {
    TrimEndFixes(name);
    var t := TrimEnd(name);
    if t == "" {
      AllSpaces("  " + name, name);
    } else {
      TrimEndOfSuffix("  ", name);
      assert TrimEnd("  " + name) == "  " + t;
      assert ("  " + t)[1..] == " " + t && (" " + t)[1..] == t;
    }
  }

  lemma {:induction false} TrimEndOfSuffix(front: string, name: string)
    requires TrimEnd(name) != ""
    ensures TrimEnd(front + name) == front + TrimEnd(name)
  {
    if IsSpace(name[|name| - 1]) {
      TrimEndOfSuffix(front, name[..|name| - 1]);
      assert (front + name)[..|front + name| - 1] == front + name[..|name| - 1];
    }
  }

  lemma {:induction false} AllSpaces(s: string, name: string)
    requires s == "  " + name && TrimEnd(name) == ""
    ensures TrimEnd(s) == "" && TrimStart(TrimEnd(s)) == "" && TrimStart(TrimEnd(name)) == ""
    decreases |name|
  {
    if name == "" {
      assert s == "  " && s[..1] == " " && s[..1][..0] == "";
      assert TrimEnd(" ") == "" by { assert " "[..0] == ""; }
    } else {
      assert IsSpace(name[|name| - 1]);
      assert s[..|s| - 1] == "  " + name[..|name| - 1];
      AllSpaces(s[..|s| - 1], name[..|name| - 1]);
    }
  }

  lemma GnuBinaryRoundTrip(hex: string, name: string)
    requires IsHexDigest(hex)
    ensures Classify(Render(GnuBinary, hex, name)) == Listed(Entry(Lower(hex), name)) <==> Expressible(GnuBinary, name)
  {
    hide TrimEnd, ParseGnu, Classify, Lower;
    assert Render(GnuBinary, hex, name) == hex + (" *" + name);
    GnuLine(hex, " *", name);
    TrimEndKeepsFront(" *", name);
    GnuAfterDigest(hex, " *" + TrimEnd(name));
    assert (" *" + TrimEnd(name))[1..] == "*" + TrimEnd(name);
    assert TrimStart(" *" + TrimEnd(name)) == "*" + TrimEnd(name);
    assert ("*" + TrimEnd(name))[1..] == TrimEnd(name);
    TrimEndFixes(name);
  }

  /** `") = "` cannot overlap itself, so closing a name with it adds no earlier match. */
  lemma CloseIsFirst(name: string, tail: string)
    ensures Find(name + BSD_CLOSE + tail, BSD_CLOSE) == Some(|name|) <==> !Occurs(name, BSD_CLOSE)
  {
    var s := name + BSD_CLOSE + tail;
    assert OccursAt(s, BSD_CLOSE, |name|);
    forall i | 0 <= i < |name| ensures OccursAt(s, BSD_CLOSE, i) <==> OccursAt(name, BSD_CLOSE, i) {
      if i + 4 <= |name| {
        assert s[i..i + 4] == name[i..i + 4];
      } else {
        assert s[i..i + 4][|name| - i] == BSD_CLOSE[0];
      }
    }
  }

  lemma BsdRoundTrip(hex: string, name: string)
    requires IsHexDigest(hex)
    ensures Classify(Render(Bsd, hex, name)) == Listed(Entry(Lower(hex), name)) <==> Expressible(Bsd, name)
  {
    hide TrimEnd, TrimStart, Lower, Find;
    var line := Render(Bsd, hex, name);
    HexDigitIsNoSpace(hex[0]);
    HexDigitIsNoSpace(hex[63]);
    assert line[0] == 'S' && line[|line| - 1] == hex[63];
    TrimStartFixes(line);
    TrimEndFixes(line);
    var rest := line[|BSD_PREFIX|..];
    assert rest == name + BSD_CLOSE + hex;
    assert ParseGnu(line).None? by {
      assert |line| >= 65 ==> line[..DIGEST_CHARS][0] == 'S';
    }
    CloseIsFirst(name, hex);
    if Find(rest, BSD_CLOSE) == Some(|name|) {
      assert rest[..|name|] == name && rest[|name| + 4..] == hex;
      TrimStartFixes(hex);
      TrimEndFixes(hex);
    }
  }

  /** In every style, a line gives back digest and name exactly for the names the
      style can carry. */
  lemma LineRoundTrip(style: Style, hex: string, name: string)
    requires IsHexDigest(hex)
    ensures Classify(Render(style, hex, name)) == Listed(Entry(Lower(hex), name)) <==> Expressible(style, name)
    ensures !Classify(Render(style, hex, name)).Ignored?
  {
    match style {
      case GnuText =>
        GnuTextRoundTrip(hex, name);
        assert Render(GnuText, hex, name) == hex + ("  " + name);
        GnuLine(hex, "  ", name);
      case GnuBinary =>
        GnuBinaryRoundTrip(hex, name);
        assert Render(GnuBinary, hex, name) == hex + (" *" + name);
        GnuLine(hex, " *", name);
      case Bsd =>
        BsdRoundTrip(hex, name);
        BsdIsNotIgnored(hex, name);
    }
  }

  lemma BsdIsNotIgnored(hex: string, name: string)
    requires IsHexDigest(hex)
    ensures !Classify(Render(Bsd, hex, name)).Ignored?
  {
    hide TrimEnd, TrimStart, Find;
    var line := Render(Bsd, hex, name);
    HexDigitIsNoSpace(hex[63]);
    assert line[0] == 'S' && line[|line| - 1] == hex[63];
    TrimStartFixes(line);
    TrimEndFixes(line);
  }

  lemma {:induction false} TrimStartIsSuffix(s: string)
    ensures |TrimStart(s)| <= |s| && TrimStart(s) == s[|s| - |TrimStart(s)|..]
  {
    if s != "" && IsSpace(s[0]) {
      TrimStartIsSuffix(s[1..]);
    }
  }

  /** Whatever a parser accepts carries a lower-case digest and a name that can be
      printed again: no accepted entry is lost by printing in one of two styles. */
  lemma ListedCanBePrinted(raw: string)
    requires Classify(raw).Listed?
    ensures var e := Classify(raw).entry;
            && IsHexDigest(e.hex) && Lower(e.hex) == e.hex
            && (Expressible(GnuBinary, e.name) || Expressible(Bsd, e.name))
  {
    hide ParseGnu, ParseBsd, IsHexDigest, Lower, Expressible, TrimEnd, TrimStart;
    var line := Trim(raw);
    TrimEndFixes(TrimStart(raw));
    if ParseGnu(line).Some? {
      GnuCanBePrinted(line);
    } else {
      BsdCanBePrinted(line);
    }
  }

  lemma GnuCanBePrinted(line: string)
    requires ParseGnu(line).Some? && NoTrailingSpace(line)
    ensures var e := ParseGnu(line).value;
            IsHexDigest(e.hex) && Lower(e.hex) == e.hex && Expressible(GnuBinary, e.name)
  {
    hide TrimStart;
    LowerDigest(line[..DIGEST_CHARS]);
    TrimStartIsSuffix(line[DIGEST_CHARS..]);
  }

  lemma BsdCanBePrinted(line: string)
    requires ParseBsd(line).Some?
    ensures var e := ParseBsd(line).value;
            IsHexDigest(e.hex) && Lower(e.hex) == e.hex && Expressible(Bsd, e.name)
  {
    hide TrimEnd, TrimStart, Find, Occurs, IsHexDigest, Lower;
    var rest := line[|BSD_PREFIX|..];
    var close := Find(rest, BSD_CLOSE).value;
    LowerDigest(Trim(rest[close + 4..]));
    FoundFirst(rest, close);
  }

  lemma LowerDigest(hex: string)
    requires IsHexDigest(hex)
    ensures IsHexDigest(Lower(hex)) && Lower(Lower(hex)) == Lower(hex)
  {
  }

  lemma FoundFirst(rest: string, close: nat)
    requires Find(rest, BSD_CLOSE) == Some(close)
    ensures OccursAt(rest, BSD_CLOSE, close) && !Occurs(rest[..close], BSD_CLOSE)
  {
    forall i | 0 <= i <= close ensures !OccursAt(rest[..close], BSD_CLOSE, i) {
      if i + |BSD_CLOSE| <= close {
        assert rest[..close][i..i + |BSD_CLOSE|] == rest[i..i + |BSD_CLOSE|];
        assert !OccursAt(rest, BSD_CLOSE, i);
      }
    }
  }

  /** A line is passed over exactly if it is blank or its first mark is `#` or `;`. */
  lemma IgnoredIff(raw: string)
    ensures Classify(raw).Ignored? <==> TrimStart(raw) == "" || TrimStart(raw)[0] in "#;"
  {
    hide ParseLine, TrimStart;
    var s := TrimStart(raw);
    TrimStartFixes(raw);
    if s != "" {
      TrimEndKeepsFront(s[..1], s[1..]);
      assert s == s[..1] + s[1..];
    }
  }

  // ── Printing whole manifests ────────────────────────────────────────────────

  /** A printed line: an entry, or a line the parser passes over. */
  datatype Item = Check(style: Style, hex: string, name: string) | Comment(text: string) | Blank(space: string)
  {
    function Text(): string {
      match this
      case Check(style, hex, name) => Render(style, hex, name)
      case Comment(text) => text
      case Blank(space) => space
    }

    /** Fits on one line and is what it says it is. */
    predicate WellFormed() {
      && (forall i :: 0 <= i < |Text()| ==> Text()[i] != '\n')
      && match this
         case Check(_, hex, _) => IsHexDigest(hex)
         case Comment(text) => text != "" && (text[0] == '#' || text[0] == ';')
         case Blank(space) => forall i :: 0 <= i < |space| ==> IsSpace(space[i])
    }

    predicate Survives() {
      Check? ==> Expressible(style, name)
    }
  }

  function Print(items: seq<Item>): string {
    if items == [] then "" else items[0].Text() + "\n" + Print(items[1..])
  }

  /** The entries printed, digests in lower case. */
  function Entries(items: seq<Item>): seq<Entry> {
    if items == [] then []
    else
      var last := items[|items| - 1];
      Entries(items[..|items| - 1]) + if last.Check? then [Entry(Lower(last.hex), last.name)] else []
  }

  function Texts(items: seq<Item>): seq<string> {
    seq(|items|, i requires 0 <= i < |items| => StripCr(items[i].Text()))
  }

  lemma {:induction false} LinesOfPrint(items: seq<Item>)
    requires forall i :: 0 <= i < |items| ==> items[i].WellFormed()
    ensures Lines(Print(items)) == Texts(items)
  {
    if items != [] {
      var first, rest := items[0].Text(), Print(items[1..]);
      var text := Print(items);
      assert text == first + "\n" + rest;
      assert items[0].WellFormed();
      FirstBreak(first, rest);
      assert text[..|first|] == first && text[|first| + 1..] == rest;
      LinesOfPrint(items[1..]);
      assert Texts(items) == [StripCr(first)] + Texts(items[1..]);
    }
  }

  lemma FirstBreak(first: string, rest: string)
    requires forall i :: 0 <= i < |first| ==> first[i] != '\n'
    ensures Find(first + "\n" + rest, "\n") == Some(|first|)
  {
    var text := first + "\n" + rest;
    assert OccursAt(text, "\n", |first|);
    forall j | 0 <= j < |first| ensures !OccursAt(text, "\n", j) {
      assert text[j] == first[j] && text[j..j + 1][0] == first[j];
    }
  }

  /** A carriage return at the end of a line makes no difference. */
  lemma StripCrIsTrimmed(line: string)
    ensures Classify(StripCr(line)) == Classify(line)
  {
    if line != "" && line[|line| - 1] == '\r' {
      TrimIgnoresLastSpace(line);
    }
  }

  lemma {:induction false} TrimIgnoresLastSpace(line: string)
    requires line != "" && IsSpace(line[|line| - 1])
    ensures Trim(line[..|line| - 1]) == Trim(line)
  {
    if IsSpace(line[0]) {
      if |line| > 1 {
        TrimIgnoresLastSpace(line[1..]);
        assert line[1..][..|line| - 2] == line[..|line| - 1][1..];
      } else {
        assert line[1..] == "" && line[..0] == "";
      }
    }
  }

  lemma {:induction false} BlankTrims(space: string)
    requires forall i :: 0 <= i < |space| ==> IsSpace(space[i])
    ensures Trim(space) == ""
  {
    if space != "" {
      BlankTrims(space[1..]);
    }
  }

  /** A printed entry is never passed over; anything else always is. */
  lemma ItemClass(item: Item)
    requires item.WellFormed()
    ensures item.Check? ==> !Classify(item.Text()).Ignored?
    ensures item.Check? ==> (Classify(item.Text()) == Listed(Entry(Lower(item.hex), item.name)) <==> item.Survives())
    ensures !item.Check? ==> Classify(item.Text()) == Ignored
  {
    match item {
      case Check(style, hex, name) =>
        LineRoundTrip(style, hex, name);
      case Comment(text) =>
        TrimStartFixes(text);
        TrimEndKeepsFront(text[..1], text[1..]);
        assert text == text[..1] + text[1..];
      case Blank(space) =>
        BlankTrims(space);
    }
  }

  /** Parsing a printed manifest gives back exactly its entries, in order and with no
      line skipped, if and only if every name can be carried by its line's style. */
  lemma PrintThenParse(items: seq<Item>)
    requires forall i :: 0 <= i < |items| ==> items[i].WellFormed()
    ensures ParseLines(Lines(Print(items))) == Parsed(Entries(items), 0) <==> AllSurvive(items)
  {
    LinesOfPrint(items);
    PrintedLines(items);
  }

  predicate AllSurvive(items: seq<Item>) {
    forall i :: 0 <= i < |items| ==> items[i].Survives()
  }

  lemma {:induction false} PrintedLines(items: seq<Item>)
    requires forall i :: 0 <= i < |items| ==> items[i].WellFormed()
    ensures var p := ParseLines(Texts(items));
            |p.entries| + p.skipped == |Entries(items)| && (p == Parsed(Entries(items), 0) <==> AllSurvive(items))
  {
    hide Classify, Lower, StripCr;
    if items == [] {
      assert Texts(items) == [];
    } else {
      hide ParseLines, Entries, AllSurvive, Texts;
      var front, last := items[..|items| - 1], items[|items| - 1];
      assert last.WellFormed();
      PrintedLines(front);
      assert items == front + [last];
      PrintedOneMore(front, last);
    }
  }

  lemma PrintedOneMore(front: seq<Item>, last: Item)
    requires last.WellFormed()
    requires var p := ParseLines(Texts(front)); |p.entries| + p.skipped == |Entries(front)|
    ensures var p, q := ParseLines(Texts(front)), ParseLines(Texts(front + [last]));
            && |q.entries| + q.skipped == |Entries(front + [last])|
            && (q == Parsed(Entries(front + [last]), 0) <==> p == Parsed(Entries(front), 0) && last.Survives())
    ensures AllSurvive(front + [last]) <==> AllSurvive(front) && last.Survives()
  {
    var items := front + [last];
    OneMore(front, last);
    hide Classify, Expressible, AllSurvive, Lower, StripCr;
    assert items[..|front|] == front && Texts(items)[..|front|] == Texts(front);
    ItemClass(last);
    StripCrIsTrimmed(last.Text());
    assert Classify(Texts(items)[|front|]) == Classify(last.Text());
    var p, q := ParseLines(Texts(front)), ParseLines(Texts(items));
    if last.Check? && q.skipped == 0 {
      assert q.entries[..|p.entries|] == p.entries && Entries(items)[..|Entries(front)|] == Entries(front);
    }
  }

  lemma OneMore(front: seq<Item>, last: Item)
    ensures AllSurvive(front + [last]) <==> AllSurvive(front) && last.Survives()
  {
    var items := front + [last];
    assert items[|front|] == last && forall i :: 0 <= i < |front| ==> items[i] == front[i];
  }

  // ── Manifests put together ──────────────────────────────────────────────────

  function Joined(p: Parsed, q: Parsed): Parsed {
    Parsed(p.entries + q.entries, p.skipped + q.skipped)
  }

  lemma {:induction false} ParseLinesConcat(a: seq<string>, b: seq<string>)
    ensures ParseLines(a + b) == Joined(ParseLines(a), ParseLines(b))
  {
    hide Classify;
    if b == [] {
      assert a + b == a;
      assert ParseLines(a).entries + [] == ParseLines(a).entries;
    } else {
      var front, last := b[..|b| - 1], b[|b| - 1];
      ParseLinesConcat(a, front);
      assert (a + b)[..|a + b| - 1] == a + front && (a + b)[|a + b| - 1] == last;
    }
  }

  predicate NoBreak(s: string) {
    forall i :: 0 <= i < |s| ==> s[i] != '\n'
  }

  /** A text has no break, or falls apart at its first. */
  lemma SplitAtBreak(text: string) returns (first: string, rest: Option<string>)
    ensures NoBreak(first)
    ensures rest.None? ==> text == first
    ensures rest.Some? ==> text == first + "\n" + rest.value && |rest.value| < |text|
  {
    match Find(text, "\n")
    case None =>
      forall i | 0 <= i < |text| ensures text[i] != '\n' {
        assert !OccursAt(text, "\n", i);
        assert text[i..i + 1] == [text[i]];
      }
      first, rest := text, None;
    case Some(i) =>
      first, rest := text[..i], Some(text[i + 1..]);
      forall j | 0 <= j < i ensures text[j] != '\n' {
        assert !OccursAt(text, "\n", j);
        assert text[j..j + 1] == [text[j]];
      }
      assert text[i..i + 1] == "\n";
  }

  lemma FirstLine(first: string, rest: string)
    requires NoBreak(first)
    ensures Lines(first + "\n" + rest) == [StripCr(first)] + Lines(rest)
  {
    FirstBreak(first, rest);
    var text := first + "\n" + rest;
    assert text[..|first|] == first && text[|first| + 1..] == rest;
  }

  lemma OneLine(line: string)
    requires NoBreak(line)
    ensures Lines(line) == if line == "" then [] else [line]
  {
    forall i | 0 <= i <= |line| ensures !OccursAt(line, "\n", i) {
      if i < |line| {
        assert line[i..i + 1] == [line[i]];
      }
    }
  }

  lemma NoLines()
    ensures Lines("") == []
  {
  }

  lemma {:induction false} LinesConcat(a: string, b: string)
    ensures Lines(a + "\n" + b) == Lines(a + "\n") + Lines(b)
    decreases |a|
  {
    hide StripCr, Lines, NoBreak;
    var first, rest := SplitAtBreak(a);
    match rest
    case None =>
      FirstLine(a, b);
      FirstLine(a, "");
      NoLines();
      assert a + "\n" + "" == a + "\n";
    case Some(r) =>
      LinesConcat(r, b);
      FirstLine(first, r + "\n" + b);
      FirstLine(first, r + "\n");
      assert a + "\n" + b == first + "\n" + (r + "\n" + b);
      assert a + "\n" == first + "\n" + (r + "\n");
  }

  /** Parsing manifests one after the other is parsing them in one. */
  lemma ManifestsConcat(a: string, b: string)
    ensures ParseLines(Lines(a + "\n" + b)) == Joined(ParseLines(Lines(a + "\n")), ParseLines(Lines(b)))
  {
    LinesConcat(a, b);
    ParseLinesConcat(Lines(a + "\n"), Lines(b));
  }

  /** The last line need not be ended, and an empty one more changes nothing. */
  lemma {:induction false} LastBreakIsOptional(text: string)
    ensures ParseLines(Lines(text + "\n")) == ParseLines(Lines(text))
    decreases |text|
  {
    hide Lines, ParseLines, NoBreak, Classify, StripCr;
    var first, rest := SplitAtBreak(text);
    match rest
    case None =>
      EndsWithoutBreak(text);
    case Some(r) =>
      LastBreakIsOptional(r);
      FirstLine(first, r);
      FirstLine(first, r + "\n");
      assert text + "\n" == first + "\n" + (r + "\n");
      ParseLinesConcat([StripCr(first)], Lines(r));
      ParseLinesConcat([StripCr(first)], Lines(r + "\n"));
  }

  lemma EndsWithoutBreak(line: string)
    requires NoBreak(line)
    ensures ParseLines(Lines(line + "\n")) == ParseLines(Lines(line))
  {
    hide Lines, NoBreak;
    FirstLine(line, "");
    assert line + "\n" + "" == line + "\n";
    OneLine(line);
    NoLines();
    StripCrIsTrimmed(line);
    ParseOne(StripCr(line));
    ParseOne(line);
    assert Classify("").Ignored?;
  }

  lemma ParseOne(line: string)
    ensures var c := Classify(line);
            ParseLines([line]) == Parsed(if c.Listed? then [c.entry] else [], if c.Skipped? then 1 else 0)
  {
    hide Classify;
    assert [line][..0] == [] && ParseLines([]) == Parsed([], 0);
  }

  // ── Which files are manifests ───────────────────────────────────────────────

  predicate EndsWith(s: string, p: string) {
    |p| <= |s| && s[|s| - |p|..] == p
  }

  /** `is_sha256_manifest`, on a file name. */
  predicate IsManifestName(name: string) {
    var lower := Lower(name);
    || lower == "sha256sums" || lower == "sha256sum.txt"
    || EndsWith(lower, ".sha256") || EndsWith(lower, ".sha256sum")
    || Occurs(lower, "sha256") || Occurs(lower, ".sha")
  }

  /** The two substring tests decide: every other case is one of them. */
  lemma ManifestNameIff(name: string)
    ensures IsManifestName(name) <==> Occurs(Lower(name), "sha256") || Occurs(Lower(name), ".sha")
  {
    var lower := Lower(name);
    if lower == "sha256sums" || lower == "sha256sum.txt" {
      assert OccursAt(lower, "sha256", 0);
    } else if EndsWith(lower, ".sha256") {
      assert OccursAt(lower, ".sha", |lower| - 7) by {
        assert lower[|lower| - 7..][..4] == ".sha";
      }
    } else if EndsWith(lower, ".sha256sum") {
      assert OccursAt(lower, ".sha", |lower| - 10) by {
        assert lower[|lower| - 10..][..4] == ".sha";
      }
    }
  }
}
