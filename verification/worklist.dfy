/**
 The first half of `startScan`: which ranges to scan and the list of
 addresses they expand to.

 With the custom-range field blank after trimming, the eight built-in /24
 ranges are used; otherwise the field is cut into lines, each line is
 trimmed and blank lines are dropped. Each range is expanded in order and
 the expansions are appended, duplicates and all. An expansion that throws
 stops the scan before any probing, and so does an empty list.

 A range expands without throwing unless the engine runs out of room: the
 spread `allIPs.push(...ips)` is limited in the number of arguments it may
 pass, and memory is finite. Whether that happens for a range is not a
 property of the text, so it is given to the model as an input.
 */
module Worklist {
  import opened Text
  import opened Bits
  import opened Address
  import opened Cidr
  import opened Seqs

  /** The ranges scanned when no custom range is given. */
  const DEFAULT_RANGES: seq<string> := [
    "162.159.192.0/24",
    "162.159.193.0/24",
    "162.159.195.0/24",
    "162.159.204.0/24",
    "188.114.96.0/24",
    "188.114.97.0/24",
    "188.114.98.0/24",
    "188.114.99.0/24"
  ]

  /** The lines of the field, each trimmed, blank ones dropped, in order. */
  function TrimmedLines(lines: seq<string>): (rs: seq<string>)
    ensures |rs| <= |lines|
    ensures forall k :: 0 <= k < |rs| ==> rs[k] != ""
  {
    if |lines| == 0 then []
    else
      var t := Trim(lines[0]);
      (if t == "" then [] else [t]) + TrimmedLines(lines[1..])
  }

  /** The ranges `startScan` scans, given the custom-range field. */
  function SelectRanges(field: string): seq<string> {
    var input := Trim(field);
    if input == "" then DEFAULT_RANGES else TrimmedLines(Split(input, '\n'))
  }

  /** The worklist: each range's expansion, in the order of the ranges, appended. */
  function Expansion(ranges: seq<string>): seq<string>
    requires forall k :: 0 <= k < |ranges| ==> IsRangeText(ranges[k])
  {
    ConcatMap(ranges, ParseCidr)
  }

  /**
   A range written as four octets in decimal, a slash and a prefix length
   in decimal, as each built-in one is, is well formed, with those octets
   as its base address and that prefix length.
   */
  lemma SpelledRange(text: string, a: nat, b: nat, c: nat, d: nat, prefix: nat,
                     ta: string, tb: string, tc: string, td: string, tp: string)
    requires a < 256 && b < 256 && c < 256 && d < 256 && prefix <= 32
    requires DecimalString(a) == ta && DecimalString(b) == tb && DecimalString(c) == tc && DecimalString(d) == td
    requires DecimalString(prefix) == tp
    requires text == Join([ta, tb, tc, td], '.') + "/" + tp
    ensures IsRangeText(text) && PrefixOf(text) == prefix && BaseOf(text) == BigEndian([a, b, c, d])
  {
    var octets := [a, b, c, d];
    assert DecimalTexts(octets) == [ta, tb, tc, td];
    OctetsOfBigEndian(octets);
    RangeTextOf(BigEndian(octets), prefix);
  }

  // One lemma per built-in range: the octets spelled out, each checked on its own.

  lemma DefaultText0()
    ensures DEFAULT_RANGES[0] == Join(["162", "159", "192", "0"], '.') + "/" + "24"
  {
  }

  lemma DefaultRange0()
    ensures IsRangeText(DEFAULT_RANGES[0]) && PrefixOf(DEFAULT_RANGES[0]) == 24
  {
    assert DecimalString(162) == "162" && DecimalString(159) == "159";
    assert DecimalString(192) == "192" && DecimalString(0) == "0";
    assert DecimalString(24) == "24";
    DefaultText0();
    SpelledRange(DEFAULT_RANGES[0], 162, 159, 192, 0, 24, "162", "159", "192", "0", "24");
  }

  lemma DefaultText1()
    ensures DEFAULT_RANGES[1] == Join(["162", "159", "193", "0"], '.') + "/" + "24"
  {
  }

  lemma DefaultRange1()
    ensures IsRangeText(DEFAULT_RANGES[1]) && PrefixOf(DEFAULT_RANGES[1]) == 24
  {
    assert DecimalString(162) == "162" && DecimalString(159) == "159";
    assert DecimalString(193) == "193" && DecimalString(0) == "0";
    assert DecimalString(24) == "24";
    DefaultText1();
    SpelledRange(DEFAULT_RANGES[1], 162, 159, 193, 0, 24, "162", "159", "193", "0", "24");
  }

  lemma DefaultText2()
    ensures DEFAULT_RANGES[2] == Join(["162", "159", "195", "0"], '.') + "/" + "24"
  {
  }

  lemma DefaultRange2()
    ensures IsRangeText(DEFAULT_RANGES[2]) && PrefixOf(DEFAULT_RANGES[2]) == 24
  {
    assert DecimalString(162) == "162" && DecimalString(159) == "159";
    assert DecimalString(195) == "195" && DecimalString(0) == "0";
    assert DecimalString(24) == "24";
    DefaultText2();
    SpelledRange(DEFAULT_RANGES[2], 162, 159, 195, 0, 24, "162", "159", "195", "0", "24");
  }

  lemma DefaultText3()
    ensures DEFAULT_RANGES[3] == Join(["162", "159", "204", "0"], '.') + "/" + "24"
  {
  }

  lemma DefaultRange3()
    ensures IsRangeText(DEFAULT_RANGES[3]) && PrefixOf(DEFAULT_RANGES[3]) == 24
  {
    assert DecimalString(162) == "162" && DecimalString(159) == "159";
    assert DecimalString(204) == "204" && DecimalString(0) == "0";
    assert DecimalString(24) == "24";
    DefaultText3();
    SpelledRange(DEFAULT_RANGES[3], 162, 159, 204, 0, 24, "162", "159", "204", "0", "24");
  }

  lemma DefaultText4()
    ensures DEFAULT_RANGES[4] == Join(["188", "114", "96", "0"], '.') + "/" + "24"
  {
  }

  lemma DefaultRange4()
    ensures IsRangeText(DEFAULT_RANGES[4]) && PrefixOf(DEFAULT_RANGES[4]) == 24
  {
    assert DecimalString(188) == "188" && DecimalString(114) == "114";
    assert DecimalString(96) == "96" && DecimalString(0) == "0";
    assert DecimalString(24) == "24";
    DefaultText4();
    SpelledRange(DEFAULT_RANGES[4], 188, 114, 96, 0, 24, "188", "114", "96", "0", "24");
  }

  lemma DefaultText5()
    ensures DEFAULT_RANGES[5] == Join(["188", "114", "97", "0"], '.') + "/" + "24"
  {
  }

  lemma DefaultRange5()
    ensures IsRangeText(DEFAULT_RANGES[5]) && PrefixOf(DEFAULT_RANGES[5]) == 24
  {
    assert DecimalString(188) == "188" && DecimalString(114) == "114";
    assert DecimalString(97) == "97" && DecimalString(0) == "0";
    assert DecimalString(24) == "24";
    DefaultText5();
    SpelledRange(DEFAULT_RANGES[5], 188, 114, 97, 0, 24, "188", "114", "97", "0", "24");
  }

  lemma DefaultText6()
    ensures DEFAULT_RANGES[6] == Join(["188", "114", "98", "0"], '.') + "/" + "24"
  {
  }

  lemma DefaultRange6()
    ensures IsRangeText(DEFAULT_RANGES[6]) && PrefixOf(DEFAULT_RANGES[6]) == 24
  {
    assert DecimalString(188) == "188" && DecimalString(114) == "114";
    assert DecimalString(98) == "98" && DecimalString(0) == "0";
    assert DecimalString(24) == "24";
    DefaultText6();
    SpelledRange(DEFAULT_RANGES[6], 188, 114, 98, 0, 24, "188", "114", "98", "0", "24");
  }

  lemma DefaultText7()
    ensures DEFAULT_RANGES[7] == Join(["188", "114", "99", "0"], '.') + "/" + "24"
  {
  }

  lemma DefaultRange7()
    ensures IsRangeText(DEFAULT_RANGES[7]) && PrefixOf(DEFAULT_RANGES[7]) == 24
  {
    assert DecimalString(188) == "188" && DecimalString(114) == "114";
    assert DecimalString(99) == "99" && DecimalString(0) == "0";
    assert DecimalString(24) == "24";
    DefaultText7();
    SpelledRange(DEFAULT_RANGES[7], 188, 114, 99, 0, 24, "188", "114", "99", "0", "24");
  }

  /** Every built-in range is a well-formed /24. */
  lemma DefaultRangesWellFormed()
    ensures forall k :: 0 <= k < |DEFAULT_RANGES| ==> IsRangeText(DEFAULT_RANGES[k]) && PrefixOf(DEFAULT_RANGES[k]) == 24
  {
    forall k | 0 <= k < |DEFAULT_RANGES|
      ensures IsRangeText(DEFAULT_RANGES[k]) && PrefixOf(DEFAULT_RANGES[k]) == 24
    {
      if k == 0 { DefaultRange0(); }
      else if k == 1 { DefaultRange1(); }
      else if k == 2 { DefaultRange2(); }
      else if k == 3 { DefaultRange3(); }
      else if k == 4 { DefaultRange4(); }
      else if k == 5 { DefaultRange5(); }
      else if k == 6 { DefaultRange6(); }
      else { DefaultRange7(); }
    }
  }

  // ---------------------------------------------------------------------
  // Choosing the ranges
  // ---------------------------------------------------------------------

  /** A text is kept from the field's lines exactly when it is a non-blank line, trimmed. */
  lemma {:induction false} TrimmedLinesMembers(lines: seq<string>, r: string)
    ensures r in TrimmedLines(lines) <==> r != "" && exists k :: 0 <= k < |lines| && Trim(lines[k]) == r
    decreases |lines|
  {
    if |lines| > 0 {
      var t := Trim(lines[0]);
      TrimmedLinesMembers(lines[1..], r);
      assert r in TrimmedLines(lines) <==> (t != "" && r == t) || r in TrimmedLines(lines[1..]);
      SomeLineTrimsTo(lines, r);
    }
  }

  /** Some line trims to `r` exactly when the first one does or some later one does. */
  lemma SomeLineTrimsTo(lines: seq<string>, r: string)
    requires |lines| > 0
    ensures (exists k :: 0 <= k < |lines| && Trim(lines[k]) == r) <==>
      Trim(lines[0]) == r || exists k :: 0 <= k < |lines[1..]| && Trim(lines[1..][k]) == r
  {
    if exists k :: 0 <= k < |lines[1..]| && Trim(lines[1..][k]) == r {
      var k :| 0 <= k < |lines[1..]| && Trim(lines[1..][k]) == r;
      assert Trim(lines[k + 1]) == r;
    }
    if exists k :: 0 <= k < |lines| && Trim(lines[k]) == r {
      var k :| 0 <= k < |lines| && Trim(lines[k]) == r;
      if k > 0 {
        assert Trim(lines[1..][k - 1]) == r;
      }
    }
  }

  /** The first piece of a split starts with the text's first character, unless that is the separator. */
  lemma SplitHead(s: string, sep: char)
    requires |s| > 0 && s[0] != sep
    ensures |Split(s, sep)[0]| > 0 && Split(s, sep)[0][0] == s[0]
  {
  }

  /**
   A blank field selects the built-in ranges. Any other field selects at
   least one range, and each selected range is a non-blank line of the
   trimmed field, itself trimmed.
   */
  lemma SelectRangesSpec(field: string, r: string)
    ensures AllWhitespace(field) ==> SelectRanges(field) == DEFAULT_RANGES
    ensures |SelectRanges(field)| > 0
    ensures !AllWhitespace(field) ==>
      (r in SelectRanges(field) <==> r != "" && exists k :: 0 <= k < |Split(Trim(field), '\n')| && Trim(Split(Trim(field), '\n')[k]) == r)
    ensures !AllWhitespace(field) && r in SelectRanges(field) ==> Trim(r) == r
  {
    TrimEmpty(field);
    var t := Trim(field);
    if t != "" {
      TrimEdges(field);
      var lines := Split(t, '\n');
      SplitHead(t, '\n');
      TrimEmpty(lines[0]);
      assert !AllWhitespace(lines[0]);
      TrimmedLinesMembers(lines, r);
      if r in SelectRanges(field) {
        var k :| 0 <= k < |lines| && Trim(lines[k]) == r;
        TrimIdempotent(lines[k]);
      }
    }
  }

  // ---------------------------------------------------------------------
  // The expansion
  // ---------------------------------------------------------------------

  /** Expanding two lists one after the other is expanding them joined: nothing is merged or dropped. */
  lemma ExpansionAppend(xs: seq<string>, ys: seq<string>)
    requires forall k :: 0 <= k < |xs| ==> IsRangeText(xs[k])
    requires forall k :: 0 <= k < |ys| ==> IsRangeText(ys[k])
    ensures Expansion(xs + ys) == Expansion(xs) + Expansion(ys)
  {
    ConcatMapAppend(xs, ys, ParseCidr);
  }

  /** An address is in the worklist exactly when some range expands to it. */
  lemma ExpansionMembers(ranges: seq<string>, ip: string)
    requires forall k :: 0 <= k < |ranges| ==> IsRangeText(ranges[k])
    ensures ip in Expansion(ranges) <==> exists k :: 0 <= k < |ranges| && ip in ParseCidr(ranges[k])
  {
    ConcatMapMembers(ranges, ParseCidr, ip);
  }

  /** Every address on the worklist is a dotted quad. */
  lemma ExpansionDottedQuads(ranges: seq<string>, ip: string)
    requires forall k :: 0 <= k < |ranges| ==> IsRangeText(ranges[k])
    requires ip in Expansion(ranges)
    ensures IsDottedQuad(ip)
  {
    ExpansionMembers(ranges, ip);
    var k :| 0 <= k < |ranges| && ip in ParseCidr(ranges[k]);
    ParseCidrSpec(ranges[k]);
  }

  /** Ranges that all share one prefix length contribute 2^(32 - prefix) entries each, overlaps included. */
  lemma UniformExpansion(ranges: seq<string>, prefix: nat)
    requires prefix <= 32
    requires forall k :: 0 <= k < |ranges| ==> IsRangeText(ranges[k]) && PrefixOf(ranges[k]) == prefix
    ensures |Expansion(ranges)| == |ranges| * Pow2(HostBits(prefix))
  {
    forall k | 0 <= k < |ranges|
      ensures |ParseCidr(ranges[k])| == Pow2(HostBits(prefix))
    {
      ParseCidrSpec(ranges[k]);
    }
    ConcatMapUniform(ranges, ParseCidr, Pow2(HostBits(prefix)));
  }

  /** Well-formed ranges never expand to nothing: each denotes at least its own address. */
  lemma ExpansionNonEmpty(ranges: seq<string>)
    requires forall k :: 0 <= k < |ranges| ==> IsRangeText(ranges[k])
    ensures |Expansion(ranges)| > 0 <==> |ranges| > 0
  {
    forall k | 0 <= k < |ranges|
      ensures |ParseCidr(ranges[k])| > 0
    {
      ParseCidrSpec(ranges[k]);
    }
    ConcatMapEmpty(ranges, ParseCidr);
  }

  /** The built-in ranges expand to 8 blocks of 256 addresses. */
  lemma DefaultExpansion()
    ensures forall k :: 0 <= k < |DEFAULT_RANGES| ==> IsRangeText(DEFAULT_RANGES[k])
    ensures |Expansion(DEFAULT_RANGES)| == 2048
  {
    DefaultRangesWellFormed();
    UniformExpansion(DEFAULT_RANGES, 24);
    BlockOf24();
    assert |Expansion(DEFAULT_RANGES)| == |DEFAULT_RANGES| * 256;
    assert |DEFAULT_RANGES| == 8;
  }

  /** A /24 block holds 256 addresses. */
  lemma BlockOf24()
    ensures Pow2(HostBits(24)) == 256
  {
  }

  // ---------------------------------------------------------------------
  // Assembling the worklist
  // ---------------------------------------------------------------------

  /** Why `startScan` stops before probing: a range threw, or there is nothing to scan. */
  datatype Abort = InvalidRange(range: string) | NoAddresses

  /** The outcome of the first half of `startScan`: stopped, or the worklist to probe. */
  datatype Start = Aborted(why: Abort) | Ready(worklist: seq<string>)

  /**
   The loop over the ranges, given for each whether its expansion throws.
   The first range that throws stops the scan, and the addresses gathered
   so far are discarded with it; otherwise the worklist is the expansion,
   unless that is empty.
   */
  method Assemble(ranges: seq<string>, throws: seq<bool>) returns (s: Start)
    requires |throws| == |ranges|
    requires forall k :: 0 <= k < |ranges| ==> IsRangeText(ranges[k])
    ensures forall i :: 0 <= i < |ranges| && throws[i] && (forall j :: 0 <= j < i ==> !throws[j]) ==>
      s == Aborted(InvalidRange(ranges[i]))
    ensures (forall i :: 0 <= i < |ranges| ==> !throws[i]) ==>
      s == if |Expansion(ranges)| == 0 then Aborted(NoAddresses) else Ready(Expansion(ranges))
  {
    var stop, all := ConcatUntil(ranges, ParseCidr, throws);
    if stop < |ranges| {
      return Aborted(InvalidRange(ranges[stop]));
    }
    TakeAll(ranges);
    if |all| == 0 {
      return Aborted(NoAddresses);
    }
    return Ready(all);
  }

  /**
   With the custom-range field left blank and nothing throwing, the scan
   starts on the 2048 addresses of the built-in ranges.
   */
  method AssembleDefaults(field: string, throws: seq<bool>) returns (s: Start)
    requires AllWhitespace(field)
    requires |throws| == |DEFAULT_RANGES| && forall i :: 0 <= i < |throws| ==> !throws[i]
    ensures forall k :: 0 <= k < |DEFAULT_RANGES| ==> IsRangeText(DEFAULT_RANGES[k])
    ensures s == Ready(Expansion(DEFAULT_RANGES)) && |s.worklist| == 2048
  {
    SelectRangesSpec(field, "");
    DefaultExpansion();
    s := Assemble(SelectRanges(field), throws);
  }
}
