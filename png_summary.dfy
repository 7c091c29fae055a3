/** `print_png` of lib/png_reader.c: the one-line description of a loaded
    image, `PNG[Size=<width>x<height>,Channels=<channels>` followed by
    `,Alpha=TRUE` when the image has an alpha channel and then `]` and a
    newline. The model returns the line instead of writing it to stderr.

    Its partner is a parser, ParseSummary, that reads the four fields back:
    the round trip shows that the line loses none of them. */
module PngSummary {
  import opened PngReader

  predicate IsDigit(ch: char) {
    '0' <= ch <= '9'
  }

  predicate AllDigits(s: string) {
    forall i :: 0 <= i < |s| ==> IsDigit(s[i])
  }

  function DigitChar(d: nat): (ch: char)
    requires d < 10
    ensures IsDigit(ch)
  {
    (('0' as int) + d) as char
  }

  /** `%d` of a non-negative value: its decimal digits, without leading zeros. */
  function Decimal(n: nat): (s: string)
    ensures |s| >= 1 && AllDigits(s)
    ensures s[0] == '0' ==> n == 0
  {
    if n < 10 then [DigitChar(n)] else Decimal(n / 10) + [DigitChar(n % 10)]
  }

  /** The value of a string of decimal digits. */
  function DigitsValue(s: string): nat
    requires AllDigits(s)
  {
    if s == [] then 0
    else DigitsValue(s[..|s| - 1]) * 10 + ((s[|s| - 1] as int) - ('0' as int))
  }

  /** The length of the run of digits at the start of `s`. */
  function DigitRun(s: string): (k: nat)
    ensures k <= |s| && AllDigits(s[..k])
    ensures k < |s| ==> !IsDigit(s[k])
  {
    if s == [] || !IsDigit(s[0]) then 0 else 1 + DigitRun(s[1..])
  }

  /** Reads a decimal number at the start of `s`; None when `s` does not start
      with a digit. */
  function ParseNumber(s: string): Option<(nat, string)>
  {
    var k := DigitRun(s);
    if k == 0 then None else Some((DigitsValue(s[..k]), s[k..]))
  }

  /** `s` without its prefix `p`, when it has that prefix. */
  function StripPrefix(p: string, s: string): (r: Option<string>)
    ensures r.Some? <==> |p| <= |s| && s[..|p|] == p
    ensures r.Some? ==> s == p + r.value
  {
    if |p| <= |s| && s[..|p|] == p then Some(s[|p|..]) else None
  }

  /** The fields `print_png` shows. */
  datatype Description = Description(width: nat, height: nat, channels: nat, hasAlpha: bool)

  const SizeTag: string := "PNG[Size="
  const ChannelsTag: string := ",Channels="
  const AlphaTag: string := ",Alpha=TRUE"
  const Close: string := "]\n"

  /** The line `print_png` writes for `pd`. */
  function Summary(pd: PngData): (line: string)
  {
    SizeTag + (Decimal(pd.width) + ("x" + (Decimal(pd.height) + (ChannelsTag +
      (Decimal(pd.channels) + ((if pd.hasAlpha then AlphaTag else "") + Close))))))
  }

  /** The line opens with `PNG[Size=`, closes with `]` and a newline, and has
      room for the fields in between. */
  lemma SummaryBrackets(pd: PngData)
    ensures var line := Summary(pd);
      |SizeTag| + |Close| < |line| &&
      line[..|SizeTag|] == SizeTag && line[|line| - |Close|..] == Close
  {
    var rest := Decimal(pd.width) + ("x" + (Decimal(pd.height) + (ChannelsTag +
      (Decimal(pd.channels) + (if pd.hasAlpha then AlphaTag else "")))));
    assert Summary(pd) == SizeTag + (rest + Close);
  }

  /** Reads a line of the form `print_png` writes back into its fields. */
  function ParseSummary(s: string): Option<Description>
  {
    match StripPrefix(SizeTag, s)
    case None => None
    case Some(rest) => ParseFromWidth(rest)
  }

  function ParseFromWidth(s: string): Option<Description>
  {
    match ParseNumber(s)
    case None => None
    case Some((w, rest)) =>
      match StripPrefix("x", rest)
      case None => None
      case Some(rest') => ParseFromHeight(w, rest')
  }

  function ParseFromHeight(w: nat, s: string): Option<Description>
  {
    match ParseNumber(s)
    case None => None
    case Some((h, rest)) =>
      match StripPrefix(ChannelsTag, rest)
      case None => None
      case Some(rest') => ParseFromChannels(w, h, rest')
  }

  function ParseFromChannels(w: nat, h: nat, s: string): Option<Description>
  {
    match ParseNumber(s)
    case None => None
    case Some((c, rest)) =>
      if rest == AlphaTag + Close then Some(Description(w, h, c, true))
      else if rest == Close then Some(Description(w, h, c, false))
      else None
  }

  /** The digits `Decimal` writes have the value they were written from. */
  lemma {:induction false} DecimalValue(n: nat)
    ensures DigitsValue(Decimal(n)) == n
  {
    if n >= 10 {
      var d := Decimal(n);
      assert d[..|d| - 1] == Decimal(n / 10);
      DecimalValue(n / 10);
    }
  }

  /** A run of digits followed by a non-digit (or nothing) is read to its end. */
  lemma {:induction false} DigitRunPrefix(d: string, t: string)
    requires AllDigits(d)
    requires t == [] || !IsDigit(t[0])
    ensures DigitRun(d + t) == |d|
  {
    if d != [] {
      assert (d + t)[1..] == d[1..] + t;
      DigitRunPrefix(d[1..], t);
    }
  }

  /** Reading back a number `print_png` wrote gives the number and the rest. */
  lemma ParseNumberDecimal(n: nat, t: string)
    requires t == [] || !IsDigit(t[0])
    ensures ParseNumber(Decimal(n) + t) == Some((n, t))
  {
    var d := Decimal(n);
    DigitRunPrefix(d, t);
    assert (d + t)[..|d|] == d;
    assert (d + t)[|d|..] == t;
    DecimalValue(n);
  }

  lemma StripPrefixOf(p: string, t: string)
    ensures StripPrefix(p, p + t) == Some(t)
  {
  }

  /** Round trip: the line `print_png` writes determines the width, the height,
      the channel count and the alpha flag it was written from. */
  lemma SummaryRoundTrip(pd: PngData)
    ensures ParseSummary(Summary(pd)) == Some(Description(pd.width, pd.height, pd.channels, pd.hasAlpha))
  {
    var s5 := (if pd.hasAlpha then AlphaTag else "") + Close;
    var s4 := Decimal(pd.channels) + s5;
    var s3 := ChannelsTag + s4;
    var s2 := Decimal(pd.height) + s3;
    var s1 := "x" + s2;
    var s0 := Decimal(pd.width) + s1;
    StripPrefixOf(SizeTag, s0);
    assert ParseSummary(Summary(pd)) == ParseFromWidth(s0);
    ParseNumberDecimal(pd.width, s1);
    StripPrefixOf("x", s2);
    assert ParseFromWidth(s0) == ParseFromHeight(pd.width, s2);
    ParseNumberDecimal(pd.height, s3);
    StripPrefixOf(ChannelsTag, s4);
    assert ParseFromHeight(pd.width, s2) == ParseFromChannels(pd.width, pd.height, s4);
    ParseNumberDecimal(pd.channels, s5);
    if !pd.hasAlpha {
      assert s5 == Close;
      assert |s5| != |AlphaTag + Close|;
    }
  }

  /** Two images whose lines agree agree on every field the line shows. */
  lemma SummaryInjective(a: PngData, b: PngData)
    requires Summary(a) == Summary(b)
    ensures a.width == b.width && a.height == b.height
    ensures a.channels == b.channels && a.hasAlpha == b.hasAlpha
  {
    SummaryRoundTrip(a);
    SummaryRoundTrip(b);
  }

  /** The line ends with `,Alpha=TRUE]` and a newline exactly when the image has
      alpha; otherwise the channel count's last digit stands right before `]`. */
  lemma SummaryAlphaSuffix(pd: PngData)
    ensures var s := Summary(pd);
      |s| >= |AlphaTag + Close| &&
      (s[|s| - |AlphaTag + Close|..] == AlphaTag + Close <==> pd.hasAlpha)
  {
    var d := Decimal(pd.channels);
    assert IsDigit(d[|d| - 1]);
    AlphaTagShape();
    var w, h := Decimal(pd.width), Decimal(pd.height);
    if pd.hasAlpha {
      OptionalTagSuffix(SizeTag, w, "x", h, ChannelsTag, d, AlphaTag, Close, true);
    } else {
      OptionalTagSuffix(SizeTag, w, "x", h, ChannelsTag, d, AlphaTag, Close, false);
    }
  }

  /** The alpha tag ends in a non-digit and is no longer than the two tags
      every line carries. */
  lemma AlphaTagShape()
    ensures AlphaTag != [] && !IsDigit(AlphaTag[|AlphaTag| - 1])
    ensures |AlphaTag| <= |SizeTag| + |ChannelsTag|
  {
  }

  /** A line made of six parts, an optional tag `t` and a closing `c`, ends with
      `t + c` exactly when the tag is present, provided the tag ends in a
      non-digit, the part before it ends in a digit, and the first and fifth
      parts are together at least as long as the tag. */
  lemma OptionalTagSuffix(p1: string, p2: string, p3: string, p4: string, p5: string,
                          d: string, t: string, c: string, present: bool)
    requires d != [] && IsDigit(d[|d| - 1])
    requires t != [] && !IsDigit(t[|t| - 1])
    requires |t| <= |p1| + |p5|
    ensures var s := p1 + (p2 + (p3 + (p4 + (p5 + (d + ((if present then t else []) + c))))));
      |s| >= |t + c| && (s[|s| - |t + c|..] == t + c <==> present)
  {
    var r5 := d + ((if present then t else []) + c);
    var r4 := p5 + r5;
    var r3 := p4 + r4;
    var r2 := p3 + r3;
    var r1 := p2 + r2;
    var s := p1 + r1;
    var n := |t + c|;
    if present {
      assert r5 == d + (t + c);
      SuffixOfConcat(d, t + c, n);
      SuffixOfConcat(p5, r5, n);
      SuffixOfConcat(p4, r4, n);
      SuffixOfConcat(p3, r3, n);
      SuffixOfConcat(p2, r2, n);
      SuffixOfConcat(p1, r1, n);
    } else {
      assert r5 == d + c;
      var i := |c| + 1;
      IndexFromEnd(d, c, i);
      IndexFromEnd(p5, r5, i);
      IndexFromEnd(p4, r4, i);
      IndexFromEnd(p3, r3, i);
      IndexFromEnd(p2, r2, i);
      IndexFromEnd(p1, r1, i);
      var tail := s[|s| - n..];
      assert tail[|t| - 1] == s[|s| - i] == d[|d| - 1];
      assert (t + c)[|t| - 1] == t[|t| - 1];
      assert tail[|t| - 1] != (t + c)[|t| - 1];
    }
  }

  /** The last `n` characters of `a + b` are the last `n` of `b`. */
  lemma SuffixOfConcat(a: string, b: string, n: nat)
    requires n <= |b|
    ensures (a + b)[|a + b| - n..] == b[|b| - n..]
  {
  }

  /** The `i`-th character from the end of `a + b` is that of `b` when `b`
      has at least `i` characters, and of `a` otherwise. */
  lemma IndexFromEnd(a: string, b: string, i: nat)
    requires 1 <= i <= |a + b|
    ensures (a + b)[|a + b| - i] == if i <= |b| then b[|b| - i] else a[|a| + |b| - i]
  {
  }
}
