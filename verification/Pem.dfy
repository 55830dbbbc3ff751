/** Printing DER as PEM on the console and reading PEM lines back (section 2 of RFC 7468). */
module Pem {
  import opened Bytes
  import Base64
  import LineEditor

  const CERT_MAX_LEN: nat := 2048
  const LINE_BUFF_LEN: nat := 64
  const DER_BYTES_PER_LINE: nat := 48
  const LINE_ENDING_LEN: nat := 1

  /** "-----BEGIN ", "-----END " and "-----". */
  const PEM_BEGIN: Octets := [45, 45, 45, 45, 45, 66, 69, 71, 73, 78, 32]
  const PEM_END: Octets := [45, 45, 45, 45, 45, 69, 78, 68, 32]
  const META_SUFFIX: Octets := [45, 45, 45, 45, 45]
  /** CRLF "ERROR" CRLF. */
  const ERROR_TEXT: Octets := [13, 10, 69, 82, 82, 79, 82, 13, 10]

  // ---- Printer --------------------------------------------------------------

  /** The body lines of a printed object. */
  function Body(der: Octets): (b: seq<Octets>) {
    if der == [] then []
    else var n := Min(|der|, DER_BYTES_PER_LINE);
         [Base64.Encode(der[..n])] + Body(der[n..])
  }

  lemma {:induction false} TextOfAppend(a: seq<Octets>, l: Octets)
    ensures LineEditor.Text(a + [l]) == LineEditor.Text(a) + (l + LineEditor.EOL)
  {
    if a == [] {
      assert a + [l] == [l];
      assert [l][1..] == [];
      assert LineEditor.Text([]) == [];
    } else {
      assert (a + [l])[1..] == a[1..] + [l];
      TextOfAppend(a[1..], l);
    }
  }

  /** Header, body lines and footer, each ended by CRLF. The encoder never fails here. */
  method PrintDer(header: Octets, footer: Octets, der: Octets) returns (out: Octets)
    ensures out == LineEditor.Text([header] + Body(der) + [footer])
  {
    var failed := false;
    out := header + LineEditor.EOL;
    var idx := 0;
    ghost var lines := [header];
    OneLineText(header);
    assert der[0..] == der;
    hide Base64.Encode, LineEditor.Text, Body;
    while idx < |der| && !failed
      invariant 0 <= idx <= |der| && !failed
      invariant [header] + Body(der) == lines + Body(der[idx..])
      invariant out == LineEditor.Text(lines)
    {
      var n := DER_BYTES_PER_LINE;
      if |der| - idx < DER_BYTES_PER_LINE {
        n := |der| - idx;
      }
      var line := Base64.Encode(der[idx..idx + n]);
      if |line| + 1 <= LINE_BUFF_LEN + 1 {
        BodyStep(der, idx, n, lines);
        TextOfAppend(lines, line);
        lines := lines + [line];
        out := out + (line + LineEditor.EOL);
        idx := idx + n;
      } else {
        out := out + ERROR_TEXT;
        failed := true;
      }
    }
    if !failed {
      TextOfAppend(lines, footer);
      BodyEnd(der[idx..], lines);
      out := out + (footer + LineEditor.EOL);
    }
  }

  lemma OneLineText(l: Octets)
    ensures LineEditor.Text([l]) == l + LineEditor.EOL
  {
    assert LineEditor.Text([l]) == l + LineEditor.EOL + LineEditor.Text([]);
  }

  lemma BodyStep(der: Octets, p: nat, n: nat, before: seq<Octets>)
    requires p < |der| && n == Min(|der| - p, DER_BYTES_PER_LINE)
    ensures before + Body(der[p..]) == (before + [Base64.Encode(der[p..p + n])]) + Body(der[p + n..])
  {
    assert der[p..][..n] == der[p..p + n] && der[p..][n..] == der[p + n..];
  }

  lemma BodyEnd(der: Octets, before: seq<Octets>)
    requires der == []
    ensures before + Body(der) == before
  {
  }

  // ---- Reader ---------------------------------------------------------------

  /** The reader between lines. Stuck: its own assertion on the accumulated length has failed. */
  datatype Reader = Reading(begun: bool, der: Octets) | Done(der: Octets) | Rejected | Stuck

  predicate StartsWith(line: Octets, prefix: Octets): (b: bool)
    ensures b ==> |prefix| <= |line|
  {
    |prefix| <= |line| && line[..|prefix|] == prefix
  }

  predicate Contains(s: Octets, t: Octets) {
    exists i :: 0 <= i <= |s| && StartsWith(s[i..], t)
  }

  /** The guards that reject a line before looking at it. */
  predicate Refused(der: Octets, line: Octets) {
    |line| > LINE_BUFF_LEN || |der| + |line| + LINE_ENDING_LEN >= CERT_MAX_LEN
  }

  /** One line. A refused line, or an END line without its suffix, is still run through the decoder. */
  function OnLine(begun: bool, der: Octets, line: Octets): (r: Reader)
    requires |der| < CERT_MAX_LEN
    ensures r.Reading? ==> |r.der| < CERT_MAX_LEN
  {
    if line == [] then Rejected
    else if !begun then
      if !Refused(der, line) && StartsWith(line, PEM_BEGIN) && Contains(line[|PEM_BEGIN|..], META_SUFFIX)
      then Reading(true, der)
      else Rejected
    else if !Refused(der, line) && StartsWith(line, PEM_END) && Contains(line[|PEM_END|..], META_SUFFIX) then Done(der)
    else
      match Base64.Decode(line, CERT_MAX_LEN - |der|)
      case Out(b) =>
        if |der| + |b| >= CERT_MAX_LEN then Stuck
        else if Refused(der, line) || StartsWith(line, PEM_END) then Rejected
        else Reading(true, der + b)
      case _ => Rejected
  }

  function ReadLines(r: Reader, lines: seq<Octets>): Reader
    requires r.Reading? ==> |r.der| < CERT_MAX_LEN
    decreases |lines|
  {
    if !r.Reading? || lines == [] then r else ReadLines(OnLine(r.begun, r.der, lines[0]), lines[1..])
  }

  /** Reads lines until the footer, an error, or the end of what has been typed so far. */
  method ReadPemAsDer(lines: seq<Octets>) returns (r: Reader)
    ensures r == ReadLines(Reading(false, []), lines)
  {
    hide Base64.Decode, StartsWith, Contains;
    var buf := new byte[CERT_MAX_LEN](_ => 0);
    var len, next := 0, 0;
    var beginFound, endFound, errorFlag := false, false, false;
    while len < CERT_MAX_LEN && !endFound && next < |lines|
      invariant 0 <= next <= |lines| && len < CERT_MAX_LEN && !errorFlag
      invariant ReadLines(Reading(false, []), lines)
                == if endFound then Done(buf[..len]) else ReadLines(Reading(beginFound, buf[..len]), lines[next..])
      decreases |lines| - next
    {
      var line := lines[next];
      next := next + 1;
      ghost var der := buf[..len];
      if |line| > 0 {
        if |line| > LINE_BUFF_LEN {
          errorFlag := true;
        } else if len + |line| + LINE_ENDING_LEN >= CERT_MAX_LEN {
          errorFlag := true;
        } else if !beginFound {
          if StartsWith(line, PEM_BEGIN) && Contains(line[|PEM_BEGIN|..], META_SUFFIX) {
            beginFound := true;
            continue;
          }
          errorFlag := true;
        } else if StartsWith(line, PEM_END) {
          if Contains(line[|PEM_END|..], META_SUFFIX) {
            endFound := true;
          } else {
            errorFlag := true;
          }
        }
        if beginFound && !endFound {
          var decoded := Base64.Decode(line, CERT_MAX_LEN - len);
          if decoded.Out? {
            var b := decoded.octets;
            if len + |b| >= CERT_MAX_LEN { return Stuck; }
            forall i | 0 <= i < |b| {
              buf[len + i] := b[i];
            }
            len := len + |b|;
            assert buf[..len] == der + b;
          } else {
            errorFlag := true;
          }
        }
      } else {
        errorFlag := true;
      }
      if errorFlag { return Rejected; }
    }
    return if endFound then Done(buf[..len]) else Reading(beginFound, buf[..len]);
  }

  // ---- The reader's assertion ------------------------------------------------

  /** The line is base64, its last quad is complete or filled up with padding, and its octets fill the room left
      exactly. */
  predicate FillsRoom(der: Octets, line: Octets)
    requires |der| < CERT_MAX_LEN
  {
    var r := Base64.Scan(line, 0, 0);
    r.Valid? && r.digits % 4 <= r.equals && 3 * (r.digits / 4) + r.digits % 4 - r.equals == CERT_MAX_LEN - |der|
  }

  /** The assertion fails on exactly those lines after the header, and each of them is one that the reader has
      already refused for its length. */
  lemma StuckIff(begun: bool, der: Octets, line: Octets)
    requires |der| < CERT_MAX_LEN
    ensures OnLine(begun, der, line).Stuck? <==> begun && FillsRoom(der, line)
    ensures FillsRoom(der, line) ==> Refused(der, line)
  {
    var room := CERT_MAX_LEN - |der|;
    var r := Base64.Scan(line, 0, 0);
    hide Base64.Scan, Base64.Quads, StartsWith, Contains;
    if r.Valid? {
      NeededFits(r.digits, r.equals, room);
      if Base64.Decode(line, room).Out? {
        Base64.DecodedFits(line, room);
      }
    }
  }

  /** Where the digits fill the room, the decoder's estimate is exact. */
  lemma NeededFits(digits: nat, equals: nat, room: nat)
    requires equals <= 2
    ensures digits % 4 <= equals && 3 * (digits / 4) + digits % 4 - equals == room
            <==> Base64.Needed(digits, equals) <= room == Base64.DecodedLength(digits, equals)
  {
    assert digits == 4 * (digits / 4) + digits % 4;
    assert 6 * (digits / 8) + 6 * (digits % 8) / 8 == 6 * digits / 8;
  }

  // ---- Round trip -------------------------------------------------------------

  function HeaderOf(name: Octets): Octets { PEM_BEGIN + name + META_SUFFIX }
  function FooterOf(name: Octets): Octets { PEM_END + name + META_SUFFIX }

  /** The outcome of reading back a printed object, by its length and that of its footer. */
  function Outcome(der: Octets, footerLen: nat): Reader {
    if |der| + footerLen + LINE_ENDING_LEN < CERT_MAX_LEN then Done(der)
    else if |der| == CERT_MAX_LEN then Stuck
    else Rejected
  }

  lemma SuffixContained(name: Octets)
    ensures Contains(name + META_SUFFIX, META_SUFFIX)
  {
    assert (name + META_SUFFIX)[|name|..] == META_SUFFIX;
    assert StartsWith((name + META_SUFFIX)[|name|..], META_SUFFIX);
  }

  lemma ReadFooter(der: Octets, name: Octets)
    requires |der| < CERT_MAX_LEN && |FooterOf(name)| <= LINE_BUFF_LEN
    ensures ReadLines(Reading(true, der), [FooterOf(name)])
            == if |der| + |FooterOf(name)| + LINE_ENDING_LEN < CERT_MAX_LEN then Done(der) else Rejected
  {
    var footer := FooterOf(name);
    SuffixContained(name);
    assert footer[|PEM_END|..] == name + META_SUFFIX;
    assert StartsWith(footer, PEM_END);
    assert footer[0] == 45;
    assert Base64.Decode(footer, CERT_MAX_LEN - |der|) == Base64.BadChar;
    var none: seq<Octets> := [];
    assert [footer][1..] == none;
  }

  lemma EncodedIsNotFooter(g: Octets)
    requires g != []
    ensures Base64.Encode(g) != [] && !StartsWith(Base64.Encode(g), PEM_END)
  {
    var e := Base64.Encode(g);
    assert e[0] == Base64.EncChar(g[0] / 4);
    assert e[0] != PEM_END[0];
  }

  lemma FirstBodyLine(der: Octets, p: nat, n: nat, footer: Octets)
    requires p < |der| && n == Min(|der| - p, DER_BYTES_PER_LINE)
    ensures var lines := Body(der[p..]) + [footer];
            lines[0] == Base64.Encode(der[p..p + n]) && lines[1..] == Body(der[p + n..]) + [footer]
  {
    hide Base64.Encode;
    assert der[p..][..n] == der[p..p + n] && der[p..][n..] == der[p + n..];
  }

  lemma ReadOne(begun: bool, der: Octets, lines: seq<Octets>)
    requires |der| < CERT_MAX_LEN && lines != []
    ensures ReadLines(Reading(begun, der), lines) == ReadLines(OnLine(begun, der, lines[0]), lines[1..])
  {
  }

  lemma ReadNone(r: Reader, lines: seq<Octets>)
    requires !r.Reading?
    ensures ReadLines(r, lines) == r
  {
  }

  /** Reading the body from the octet at p on, which a line boundary precedes. */
  lemma {:induction false} ReadBody(der: Octets, p: nat, name: Octets)
    requires p <= |der| && p < CERT_MAX_LEN && |FooterOf(name)| <= LINE_BUFF_LEN
    requires p % DER_BYTES_PER_LINE == 0 || p == |der| <= 2037
    ensures ReadLines(Reading(true, der[..p]), Body(der[p..]) + [FooterOf(name)]) == Outcome(der, |FooterOf(name)|)
    decreases |der| - p
  {
    hide Base64.Encode, OnLine, ReadLines;
    var footer := FooterOf(name);
    if p == |der| {
      assert der[..p] == der && Body(der[p..]) + [footer] == [footer];
      ReadFooter(der, name);
    } else {
      hide FooterOf, Body;
      var n := Min(|der| - p, DER_BYTES_PER_LINE);
      var line := Base64.Encode(der[p..p + n]);
      var rest := Body(der[p + n..]) + [footer];
      FirstBodyLine(der, p, n, footer);
      ReadOne(true, der[..p], Body(der[p..]) + [footer]);
      OneLine(der, p, n);
      if p + n <= 2037 {
        ReadBody(der, p + n, name);
      } else {
        FooterLength(name);
        ReadNone(OnLine(true, der[..p], line), rest);
      }
    }
  }

  lemma FooterLength(name: Octets)
    ensures |FooterOf(name)| >= |PEM_END| + |META_SUFFIX|
  {
  }

  /** One body line: accepted while the whole object so far stays within 2037 octets; stuck when it
      would fill the buffer exactly. */
  lemma OneLine(der: Octets, p: nat, n: nat)
    requires p < CERT_MAX_LEN && p + n <= |der| && 0 < n <= DER_BYTES_PER_LINE
    requires p % DER_BYTES_PER_LINE == 0
    ensures OnLine(true, der[..p], Base64.Encode(der[p..p + n]))
            == if p + n <= 2037 then Reading(true, der[..p + n])
               else if p + n == CERT_MAX_LEN then Stuck
               else Rejected
  {
    hide Base64.Encode, OnLine;
    var g := der[p..p + n];
    OnEncodedLine(der[..p], g);
    assert der[..p] + g == der[..p + n];
    assert p <= 1968 || p == 2016;
    assert p + |Base64.Encode(g)| + 1 < 2048 <==> p + n <= 2037;
  }

  /** Any base64 line after the header, whoever wrote it: its octets are appended when it has at most 64 characters and
      leaves room for one more octet than its own length; it stops the device when its octets fill the buffer; and it is
      refused otherwise. */
  lemma OnEncodedLine(der: Octets, g: Octets)
    requires |der| < 2048 && g != []
    ensures OnLine(true, der, Base64.Encode(g))
            == if |Base64.Encode(g)| <= 64 && |der| + |Base64.Encode(g)| + 1 < 2048 then Reading(true, der + g)
               else if |der| + |g| == 2048 then Stuck
               else Rejected
  {
    hide Base64.Encode, Base64.Decode, StartsWith;
    EncodedIsNotFooter(g);
    Base64.DecodeOfEncode(g, CERT_MAX_LEN - |der|);
  }

  /** A line after the header that holds a character outside the base64 alphabet is refused, wherever it stands, unless
      it is an END line. */
  lemma OnForeignLine(der: Octets, line: Octets, i: nat)
    requires |der| < CERT_MAX_LEN && i < |line| && !StartsWith(line, PEM_END)
    requires forall k :: 0 <= k < |Base64.ALPHABET| ==> line[i] != Base64.ALPHABET[k] as int
    requires line[i] != '=' as int && line[i] != 13 && line[i] != 10 && line[i] != 32
    ensures OnLine(true, der, line) == Rejected
  {
    Base64.ForeignIsRefused(line, i, CERT_MAX_LEN - |der|);
  }

  /** Lines that the printer would not put there: nothing but a BEGIN line may come first, and neither an empty line nor
      a BEGIN or END line without its dashes is accepted. */
  lemma OnMarkerLine(begun: bool, der: Octets, line: Octets)
    requires |der| < CERT_MAX_LEN
    ensures line == [] ==> OnLine(begun, der, line) == Rejected
    ensures !begun ==> OnLine(begun, der, line)
                       == if |line| <= 64 && |der| + |line| + 1 < 2048 && StartsWith(line, Ascii("-----BEGIN "))
                             && Contains(line[11..], Ascii("-----")) then Reading(true, der) else Rejected
    ensures begun && StartsWith(line, Ascii("-----END "))
            ==> OnLine(begun, der, line)
                == if |line| <= 64 && |der| + |line| + 1 < 2048 && Contains(line[9..], Ascii("-----")) then Done(der)
                   else Rejected
  {
    Markers();
    if begun && StartsWith(line, PEM_END) {
      assert line[0] == line[..|PEM_END|][0] == 45;
      DashIsForeign(line, CERT_MAX_LEN - |der|);
    }
  }

  lemma Markers()
    ensures PEM_BEGIN == Ascii("-----BEGIN ") && PEM_END == Ascii("-----END ") && META_SUFFIX == Ascii("-----")
  {
  }

  lemma DashIsForeign(line: Octets, room: nat)
    requires line != [] && line[0] == 45
    ensures Base64.Decode(line, room) == Base64.BadChar
  {
  }

  /** The printed lines: all have 64 characters but the last, which has no more, and together they encode the object 48
      octets at a time. */
  lemma {:induction false} BodyLines(der: Octets, i: nat)
    requires i < |Body(der)|
    ensures |Body(der)| == (|der| + 47) / 48 && 48 * i < |der|
    ensures Body(der)[i] == Base64.Encode(der[48 * i..Min(48 * i + 48, |der|)])
    ensures if i < |Body(der)| - 1 then |Body(der)[i]| == 64 else 0 < |Body(der)[i]| <= 64
  {
    hide Base64.Encode;
    var n := Min(|der|, DER_BYTES_PER_LINE);
    if i > 0 {
      BodyLines(der[n..], i - 1);
      assert der[n..][48 * (i - 1)..Min(48 * (i - 1) + 48, |der| - n)] == der[48 * i..Min(48 * i + 48, |der|)];
    } else {
      BodyCount(der);
    }
  }

  lemma {:induction false} BodyCount(der: Octets)
    ensures |Body(der)| == (|der| + 47) / 48
  {
    if |der| > 48 {
      BodyCount(der[48..]);
    }
  }

  /** The round trip with its exact bound: the same DER comes back when it and the footer fit; an object of
      exactly the buffer size trips the reader's assertion; every other one is rejected. */
  lemma PrintedReadsBack(der: Octets, name: Octets)
    requires |HeaderOf(name)| <= LINE_BUFF_LEN
    ensures ReadLines(Reading(false, []), [HeaderOf(name)] + Body(der) + [FooterOf(name)])
            == Outcome(der, |FooterOf(name)|)
  {
    var header := HeaderOf(name);
    var lines := [header] + Body(der) + [FooterOf(name)];
    assert lines[0] == header && lines[1..] == Body(der) + [FooterOf(name)];
    SuffixContained(name);
    assert header[|PEM_BEGIN|..] == name + META_SUFFIX;
    assert OnLine(false, [], header) == Reading(true, []);
    assert der[..0] == [] && der[0..] == der;
    ReadBody(der, 0, name);
  }

  // ---- Through the console ------------------------------------------------------

  predicate PlainName(name: Octets) {
    LineEditor.Clean(name) && |HeaderOf(name)| <= LINE_BUFF_LEN
  }

  lemma {:induction false} BodySendable(der: Octets, i: nat)
    requires i < |Body(der)|
    ensures LineEditor.Sendable(Body(der)[i])
  {
    var n := Min(|der|, DER_BYTES_PER_LINE);
    if i == 0 {
      EncodedSendable(der[..n]);
    } else {
      BodySendable(der[n..], i - 1);
    }
  }

  lemma EncodedSendable(g: Octets)
    requires 0 < |g| <= DER_BYTES_PER_LINE
    ensures LineEditor.Sendable(Base64.Encode(g))
  {
    EncodedClean(g);
  }

  lemma {:induction false} EncodedClean(g: Octets)
    ensures LineEditor.Clean(Base64.Encode(g))
  {
    if |g| >= 3 {
      EncodedClean(g[3..]);
    }
  }

  lemma NameSendable(name: Octets)
    requires PlainName(name)
    ensures LineEditor.Sendable(HeaderOf(name)) && LineEditor.Sendable(FooterOf(name))
  {
  }

  /** Feeding the printer's own output to the console and on to the reader gives the same outcome. */
  lemma ConsoleRoundTrip(der: Octets, name: Octets)
    requires PlainName(name)
    ensures ReadLines(Reading(false, []),
                      LineEditor.Lines(LineEditor.Text([HeaderOf(name)] + Body(der) + [FooterOf(name)])))
            == Outcome(der, |FooterOf(name)|)
  {
    hide Base64.Encode, ReadLines, LineEditor.Lines, LineEditor.Text, Body;
    var lines := [HeaderOf(name)] + Body(der) + [FooterOf(name)];
    NameSendable(name);
    hide HeaderOf, FooterOf, LineEditor.Sendable;
    forall i | 0 <= i < |lines| ensures LineEditor.Sendable(lines[i]) {
      if 0 < i < |lines| - 1 {
        BodySendable(der, i - 1);
      }
    }
    LineEditor.LinesOfText(lines);
    PrintedReadsBack(der, name);
  }
}
