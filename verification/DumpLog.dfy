/**
 The dump as text: `emit_serial` of crates/nanochrono-baremetal/src/crashdump.rs
 sends it between two marker lines, and `extract` of tools/nanodump.py cuts the
 last complete one out of a log.
 */
module DumpLog {
  import opened Base64
  import opened Bytes
  import opened Wrappers
  import F = DumpFormat
  import Utf8

  const BEGIN := "-----BEGIN NANOCHRONO DUMP-----"
  const END := "-----END NANOCHRONO DUMP-----"
  const CRLF := "\r\n"
  const COLUMNS := 76

  // ----------------------------------------------------------------- writing

  /** `s` broken into lines of 76 columns, the last one shorter. */
  function Lines(s: string): string {
    if s == "" then ""
    else if |s| <= COLUMNS then s + CRLF
    else s[..COLUMNS] + CRLF + Lines(s[COLUMNS..])
  }

  function Emitted(dump: seq<byte>): string {
    CRLF + BEGIN + CRLF + Lines(Encode(dump)) + END + CRLF
  }

  lemma {:induction false} LinesNext(s: string, t: string)
    requires |s| % COLUMNS == 0 && 0 < |t| <= COLUMNS
    ensures Lines(s + t) == Lines(s) + t + CRLF
  {
    if s == "" {
      assert s + t == t;
    } else {
      LinesNext(s[COLUMNS..], t);
      assert (s + t)[..COLUMNS] == s[..COLUMNS] && (s + t)[COLUMNS..] == s[COLUMNS..] + t;
      if |s| == COLUMNS {
        assert s[..COLUMNS] == s;
      }
    }
  }

  class Uart {
    var sent: string

    constructor ()
      ensures sent == ""
    {
      sent := "";
    }

    method Write(s: string)
      modifies this
      ensures sent == old(sent) + s
    {
      sent := sent + s;
    }

    method WriteLine(s: string)
      modifies this
      ensures sent == old(sent) + s + CRLF
    {
      Write(s);
      Write(CRLF);
    }

    /** Everything it sends is the text `Emitted` says, its line buffer flushed whenever it is full. */
    method EmitSerial(dump: seq<byte>)
      modifies this
      ensures sent == old(sent) + Emitted(dump)
    {
      hide Quad, Lines, Encode, BEGIN, END, CRLF;
      Write(CRLF);
      WriteLine(BEGIN);
      EmitLines(dump);
      WriteLine(END);
      Regroup7(old(sent), CRLF, BEGIN, CRLF, Lines(Encode(dump)), END, CRLF);
    }

    /** Of the letters `e`, the full lines `whole` were sent since `start`; the rest waits in `line`. */
    ghost predicate Pending(line: array<char>, used: nat, whole: string, start: string, e: string)
      reads this, line
    {
      line.Length == COLUMNS && used < COLUMNS && used % 4 == 0 && |whole| % COLUMNS == 0
      && e == whole + line[..used] && sent == start + Lines(whole)
    }

    method EmitLines(dump: seq<byte>)
      modifies this
      ensures sent == old(sent) + Lines(Encode(dump))
    {
      hide Quad, Lines, Encode, Pending;
      var line := new char[COLUMNS](_ => '\0');
      var used, k := 0, 0;
      ghost var whole := "";
      Nothing(dump, line);
      while k < |dump|
        invariant k <= |dump| && (k % 3 == 0 || k == |dump|)
        invariant Pending(line, used, whole, old(sent), Encode(dump[..k]))
        modifies this, line
      {
        var chunk := if |dump| - k > 3 then dump[k..k + 3] else dump[k..];
        EncodeNext(dump, k, chunk);
        assert dump[..k] + chunk == dump[..k + |chunk|];
        used, whole := EmitQuad(line, used, Quad(chunk), whole, old(sent), Encode(dump[..k]));
        k := k + |chunk|;
      }
      assert dump[..k] == dump;
      EmitRest(line, used, whole, old(sent), Encode(dump));
    }

    method EmitQuad(line: array<char>, used: nat, quad: string, ghost whole: string, ghost start: string, ghost e: string)
      returns (left: nat, ghost now: string)
      requires Pending(line, used, whole, start, e) && |quad| == 4
      modifies this, line
      ensures Pending(line, left, now, start, e + quad)
    {
      hide Lines;
      AddQuad(line, used, quad);
      left := used + 4;
      now := whole;
      assert e + quad == whole + line[..left];
      if left == line.Length {
        LinesNext(whole, line[..]);
        WriteLine(line[..]);
        now := whole + line[..];
        left := 0;
      }
    }

    method EmitRest(line: array<char>, used: nat, ghost whole: string, ghost start: string, ghost e: string)
      requires Pending(line, used, whole, start, e)
      modifies this
      ensures sent == start + Lines(e)
    {
      hide Lines;
      if used > 0 {
        LinesNext(whole, line[..used]);
        WriteLine(line[..used]);
      } else {
        assert whole + line[..0] == whole;
      }
    }

    lemma Nothing(dump: seq<byte>, line: array<char>)
      requires line.Length == COLUMNS
      ensures Pending(line, 0, "", sent, Encode(dump[..0]))
    {
      assert dump[..0] == [];
      assert sent + Lines("") == sent;
    }
  }

  lemma Regroup7(a: string, b: string, c: string, d: string, e: string, f: string, g: string)
    ensures a + b + (c + d) + e + (f + g) == a + (b + c + d + e + f + g)
    ensures a + b + c + d + e + f + g == a + (b + c + d + e + f + g)
  {
    assert a + b + c + d + e + f + g == a + (b + c + d + e + f + g);
    assert a + b + (c + d) + e + (f + g) == a + b + c + d + e + f + g;
  }

  method AddQuad(line: array<char>, used: nat, quad: string)
    requires |quad| == 4 && used + 4 <= line.Length
    modifies line
    ensures line[..used + 4] == old(line[..used]) + quad
  {
    forall i | 0 <= i < 4 {
      line[used + i] := quad[i];
    }
  }

  // ----------------------------------------------------------------- reading

  /** Where Python's `str.splitlines` ends a line. */
  predicate IsBreak(c: char) {
    '\n' <= c <= '\r' || '\U{1c}' <= c <= '\U{1e}' || c == '\U{85}' || c == '\U{2028}' || c == '\U{2029}'
  }

  /** What Python's `str.strip` takes off. */
  predicate IsSpace(c: char) {
    '\t' <= c <= '\r' || '\U{1c}' <= c <= ' ' || c == '\U{85}' || c == '\U{a0}' || c == '\U{1680}'
    || '\U{2000}' <= c <= '\U{200a}' || c == '\U{2028}' || c == '\U{2029}' || c == '\U{202f}' || c == '\U{205f}'
    || c == '\U{3000}'
  }

  /** The characters before the first line break. */
  function FirstLine(text: string): (line: string)
    ensures line <= text && forall i | 0 <= i < |line| :: !IsBreak(line[i])
    ensures |line| < |text| ==> IsBreak(text[|line|])
  {
    if text == "" || IsBreak(text[0]) then "" else [text[0]] + FirstLine(text[1..])
  }

  /** How much a first line takes with its break; a carriage return takes a newline with it. */
  function Taken(text: string): (n: nat)
    requires text != ""
    ensures 0 < n <= |text|
  {
    var n := |FirstLine(text)|;
    if n == |text| then n
    else if text[n] == '\r' && n + 1 < |text| && text[n + 1] == '\n' then n + 2
    else n + 1
  }

  function SplitLines(text: string): seq<string>
    decreases |text|
  {
    if text == "" then [] else [FirstLine(text)] + SplitLines(text[Taken(text)..])
  }

  function LStrip(s: string): (r: string)
    ensures |r| <= |s|
  {
    if s != "" && IsSpace(s[0]) then LStrip(s[1..]) else s
  }

  function RStrip(s: string): (r: string)
    ensures |r| <= |s|
    decreases |s|
  {
    if s != "" && IsSpace(s[|s| - 1]) then RStrip(s[..|s| - 1]) else s
  }

  function Strip(s: string): string {
    RStrip(LStrip(s))
  }

  /** The lines since an open marker, and the last dump that was closed. */
  datatype Scan = Scan(inside: Option<seq<string>>, last: Option<string>)

  function Join(lines: seq<string>): string {
    if lines == [] then "" else lines[0] + Join(lines[1..])
  }

  function ReadLine(s: Scan, raw: string): Scan {
    var line := Strip(raw);
    if line == BEGIN then s.(inside := Some([]))
    else if line == END && s.inside.Some? then Scan(None, Some(Join(s.inside.value)))
    else if s.inside.Some? then s.(inside := Some(s.inside.value + [line]))
    else s
  }

  function ReadLines(s: Scan, lines: seq<string>): Scan
    decreases |lines|
  {
    if lines == [] then s else ReadLines(ReadLine(s, lines[0]), lines[1..])
  }

  datatype Extraction = NoDump | Damaged | Dump(bytes: seq<byte>)

  const START := Scan(None, None)

  function Opened(last: Option<string>): Extraction {
    if last.None? then NoDump
    else
      match Decode(last.value)
      case Some(bytes) => Dump(bytes)
      case None => Damaged
  }

  function ExtractOf(text: string): Extraction {
    Opened(ReadLines(START, SplitLines(text)).last)
  }

  /** One pass over the stripped lines, keeping what was closed last. */
  method Extract(text: string) returns (r: Extraction)
    ensures r == ExtractOf(text)
  {
    var lines := SplitLines(text);
    var last: Option<string>, inside: Option<seq<string>> := None, None;
    for i := 0 to |lines|
      invariant ReadLines(Scan(inside, last), lines[i..]) == ReadLines(START, lines)
    {
      hide Strip, Join, SplitLines;
      assert lines[i..][1..] == lines[i + 1..];
      var line := Strip(lines[i]);
      if line == BEGIN {
        inside := Some([]);
      } else if line == END && inside.Some? {
        last := Some(Join(inside.value));
        inside := None;
      } else if inside.Some? {
        inside := Some(inside.value + [line]);
      }
    }
    r := Opened(last);
  }

  // ------------------------------------------------------------- round trip

  lemma {:induction false} ReadLinesAppend(s: Scan, a: seq<string>, b: seq<string>)
    ensures ReadLines(s, a + b) == ReadLines(ReadLines(s, a), b)
    decreases |a|
  {
    hide ReadLine;
    if a == [] {
      assert a + b == b;
    } else {
      ReadLinesAppend(ReadLine(s, a[0]), a[1..], b);
      assert (a + b)[1..] == a[1..] + b;
    }
  }

  /** A newline always ends a line, whatever stands before it. */
  lemma {:induction false} SplitAtNewline(a: string, b: string)
    ensures SplitLines(a + "\n" + b) == SplitLines(a + "\n") + SplitLines(b)
    decreases |a|
  {
    hide FirstLine, IsBreak;
    var (head, all) := (a + "\n", a + "\n" + b);
    FirstLineStops(head, b);
    var n := Taken(head);
    assert head[n..] + b == all[n..];
    if n == |head| {
      assert head[n..] == "" && all[n..] == b;
    } else {
      assert head[n..] == a[n..] + "\n";
      SplitAtNewline(a[n..], b);
    }
  }

  lemma {:induction false} FirstLineStops(head: string, b: string)
    requires head != "" && head[|head| - 1] == '\n'
    ensures FirstLine(head + b) == FirstLine(head) && |FirstLine(head)| < |head| && Taken(head + b) == Taken(head)
  {
    if !IsBreak(head[0]) {
      FirstLineStops(head[1..], b);
      assert (head + b)[1..] == head[1..] + b;
    }
  }

  /** One line that stripping leaves alone. */
  predicate Solid(s: string) {
    s != "" && !IsSpace(s[0]) && !IsSpace(s[|s| - 1]) && forall i | 0 <= i < |s| :: !IsBreak(s[i])
  }

  lemma {:induction false} FirstLineOf(s: string, rest: string)
    requires forall i | 0 <= i < |s| :: !IsBreak(s[i])
    requires rest != "" && IsBreak(rest[0])
    ensures FirstLine(s + rest) == s
  {
    if s == "" {
      assert s + rest == rest;
    } else {
      assert (s + rest)[1..] == s[1..] + rest;
      FirstLineOf(s[1..], rest);
    }
  }

  /** A line sent with its line break is read as that line. */
  lemma LineSplits(s: string, rest: string)
    requires Solid(s)
    ensures SplitLines(s + CRLF + rest) == [s] + SplitLines(rest)
  {
    var text := s + (CRLF + rest);
    assert text == s + CRLF + rest;
    FirstLineOf(s, CRLF + rest);
    assert text[|s|..] == CRLF + rest;
    assert text[|s|] == (CRLF + rest)[0] && text[|s| + 1] == (CRLF + rest)[1];
    assert text[|s| + 2..] == rest;
  }

  lemma StripSolid(s: string)
    requires Solid(s)
    ensures Strip(s) == s
  {
  }

  lemma MarkersAreSolid()
    ensures Solid(BEGIN) && Solid(END) && BEGIN != END && BEGIN[0] == '-' && END[0] == '-'
  {
    assert BEGIN[5] == 'B' && END[5] == 'E';
  }

  // ------------------------------------------------------ the base64 lines

  function Pieces(s: string): seq<string> {
    if s == "" then [] else if |s| <= COLUMNS then [s] else [s[..COLUMNS]] + Pieces(s[COLUMNS..])
  }

  lemma PlainIsSolid(s: string)
    requires s != "" && AllPlain(s)
    ensures Solid(s) && s[0] != '-'
  {
    assert Plain(s[0]) && Plain(s[|s| - 1]);
  }

  lemma {:induction false} LinesSplit(s: string, rest: string)
    requires AllPlain(s)
    ensures SplitLines(Lines(s) + rest) == Pieces(s) + SplitLines(rest)
    decreases |s|
  {
    hide AllPlain, SplitLines;
    if s == "" {
      assert Lines(s) + rest == rest;
    } else if |s| <= COLUMNS {
      PlainIsSolid(s);
      LineSplits(s, rest);
    } else {
      var (head, tail) := (s[..COLUMNS], s[COLUMNS..]);
      PlainParts(s, COLUMNS);
      PlainIsSolid(head);
      LineSplits(head, Lines(tail) + rest);
      assert Lines(s) + rest == head + CRLF + (Lines(tail) + rest);
      LinesSplit(tail, rest);
    }
  }

  lemma PlainParts(s: string, n: nat)
    requires AllPlain(s) && n <= |s|
    ensures AllPlain(s[..n]) && AllPlain(s[n..])
  {
  }

  lemma {:induction false} JoinPieces(s: string)
    ensures Join(Pieces(s)) == s
  {
    if |s| > COLUMNS {
      JoinPieces(s[COLUMNS..]);
    } else if s != "" {
      assert Pieces(s)[1..] == [];
    }
  }

  /** Inside the markers every base64 line is kept as it is: none can be taken for a marker. */
  lemma {:induction false} PiecesKept(s: string, lines: seq<string>, last: Option<string>)
    requires AllPlain(s)
    ensures ReadLines(Scan(Some(lines), last), Pieces(s)) == Scan(Some(lines + Pieces(s)), last)
    decreases |s|
  {
    hide AllPlain, ReadLine, ReadLines, Pieces;
    if s == "" {
      NoPieces(Scan(Some(lines), last));
      assert lines + [] == lines;
    } else {
      var n := if |s| <= COLUMNS then |s| else COLUMNS;
      PlainParts(s, n);
      PieceKept(s[..n], lines, last);
      PiecesKept(s[n..], lines + [s[..n]], last);
      PiecesStep(s, n);
      assert lines + [s[..n]] + Pieces(s[n..]) == lines + Pieces(s);
      ReadStep(Scan(Some(lines), last), s[..n], Pieces(s[n..]));
    }
  }

  lemma NoPieces(s: Scan)
    ensures Pieces("") == [] && ReadLines(s, []) == s
  {
  }

  lemma PiecesStep(s: string, n: nat)
    requires s != "" && n == if |s| <= COLUMNS then |s| else COLUMNS
    ensures Pieces(s) == [s[..n]] + Pieces(s[n..])
  {
    if |s| <= COLUMNS {
      assert s[..n] == s && s[n..] == "";
    }
  }

  lemma ReadStep(s: Scan, line: string, rest: seq<string>)
    ensures ReadLines(s, [line] + rest) == ReadLines(ReadLine(s, line), rest)
  {
    hide ReadLine;
    assert ([line] + rest)[1..] == rest;
  }

  lemma PieceKept(s: string, lines: seq<string>, last: Option<string>)
    requires AllPlain(s) && s != ""
    ensures ReadLine(Scan(Some(lines), last), s) == Scan(Some(lines + [s]), last)
  {
    hide AllPlain, Strip, Solid;
    PlainIsSolid(s);
    StripSolid(s);
    MarkersAreSolid();
  }

  // ---------------------------------------------------------- the whole log

  /** What was closed earlier only counts when nothing is closed later. */
  lemma {:induction false} LastWins(inside: Option<seq<string>>, last: Option<string>, lines: seq<string>)
    ensures (var (alone, now) := (ReadLines(Scan(inside, None), lines), ReadLines(Scan(inside, last), lines));
      now.inside == alone.inside && now.last == if alone.last.Some? then alone.last else last)
    decreases |lines|
  {
    if lines != [] {
      hide Strip, Join;
      var s := ReadLine(Scan(inside, last), lines[0]);
      LastWins(s.inside, s.last, lines[1..]);
      LastWins(s.inside, ReadLine(Scan(inside, None), lines[0]).last, lines[1..]);
    }
  }

  lemma EmittedSplits(dump: seq<byte>, before: string, after: string)
    ensures SplitLines(before + Emitted(dump) + after)
      == SplitLines(before + CRLF) + ([BEGIN] + Pieces(Encode(dump)) + [END] + SplitLines(after))
  {
    hide SplitLines, Encode, Lines, Solid, AllPlain, Pieces, BEGIN, END;
    var e := Encode(dump);
    var tail := END + CRLF + after;
    var body := BEGIN + CRLF + (Lines(e) + tail);
    EncodeIsPlain(dump);
    MarkersAreSolid();
    LineSplits(END, after);
    LinesSplit(e, tail);
    LineSplits(BEGIN, Lines(e) + tail);
    SplitAtNewline(before + "\r", body);
    assert before + "\r" + "\n" == before + CRLF;
    TextParts(before, Lines(e), after);
  }

  lemma TextParts(before: string, lines: string, after: string)
    ensures before + (CRLF + BEGIN + CRLF + lines + END + CRLF) + after
      == before + CRLF + (BEGIN + CRLF + (lines + (END + CRLF + after)))
  {
    Regroup(before, CRLF, BEGIN, CRLF, lines, END, CRLF, after);
  }

  lemma Regroup(a: string, b: string, c: string, d: string, e: string, f: string, g: string, h: string)
    ensures a + (b + c + d + e + f + g) + h == a + b + (c + d + (e + (f + g + h)))
  {
    var left, right := b + c + d + e, f + g;
    assert b + c + d + e + f + g == left + right;
    assert a + (left + right) + h == a + left + (right + h);
    assert a + left == a + b + (c + d + e);
  }

  /** Whatever surrounds it, an emitted dump is read back byte for byte, unless a later one is complete. */
  lemma EmittedIsExtracted(dump: seq<byte>, before: string, after: string)
    ensures ExtractOf(before + Emitted(dump) + after)
      == if ExtractOf(after) == NoDump then Dump(dump) else ExtractOf(after)
  {
    hide SplitLines, Encode, Lines, Solid, AllPlain, Pieces, ReadLines, Decode, Join;
    var e := Encode(dump);
    var pre := ReadLines(START, SplitLines(before + CRLF));
    EmittedSplits(dump, before, after);
    EncodeIsPlain(dump);
    ReadDump(pre, e, SplitLines(after));
    ReadLinesAppend(START, SplitLines(before + CRLF), [BEGIN] + Pieces(e) + [END] + SplitLines(after));
    LastWins(None, Some(e), SplitLines(after));
    DecodeEncode(dump);
  }

  lemma ReadDump(s: Scan, e: string, rest: seq<string>)
    requires AllPlain(e)
    ensures ReadLines(s, [BEGIN] + Pieces(e) + [END] + rest) == ReadLines(Scan(None, Some(e)), rest)
  {
    hide AllPlain, Pieces, Join, Solid, Strip;
    MarkersAreSolid();
    StripSolid(BEGIN);
    StripSolid(END);
    PiecesKept(e, [], s.last);
    JoinPieces(e);
    assert [BEGIN] + Pieces(e) + [END] + rest == [BEGIN] + (Pieces(e) + ([END] + rest));
    ReadLinesAppend(Scan(Some([]), s.last), Pieces(e), [END] + rest);
    assert [] + Pieces(e) == Pieces(e);
  }

  // --------------------------------------------------------- the file as read

  /** `load`: a file that begins as a dump is taken as one, any other as a log. */
  function LoadOf(data: seq<byte>): Extraction {
    if F.MAGIC <= data then Dump(data) else ExtractOf(Utf8.Decode(data))
  }

  /** A log as bytes: a dump sent between `before` and `after`. */
  function Log(dump: seq<byte>, before: seq<byte>, after: seq<byte>): seq<byte> {
    before + Ascii(Emitted(dump)) + after
  }

  lemma IsAsciiAppend(a: string, b: string)
    requires Utf8.IsAscii(a) && Utf8.IsAscii(b)
    ensures Utf8.IsAscii(a + b)
  {
  }

  lemma {:induction false} LinesAscii(s: string)
    requires AllPlain(s)
    ensures Utf8.IsAscii(Lines(s)) && |Lines(s)| >= |s|
    decreases |s|
  {
    hide AllPlain, Utf8.IsAscii;
    var n := if |s| <= COLUMNS then |s| else COLUMNS;
    PlainParts(s, n);
    PlainAscii(s[..n]);
    CrLfAscii();
    IsAsciiAppend(s[..n], CRLF);
    if |s| > COLUMNS {
      LinesAscii(s[n..]);
      IsAsciiAppend(s[..n] + CRLF, Lines(s[n..]));
    } else if s != "" {
      assert s[..n] == s;
    } else {
      NothingAscii();
    }
  }

  lemma PlainAscii(s: string)
    requires AllPlain(s)
    ensures Utf8.IsAscii(s)
  {
    assert forall i | 0 <= i < |s| :: Plain(s[i]);
  }

  lemma CrLfAscii()
    ensures Utf8.IsAscii(CRLF)
  {
  }

  lemma NothingAscii()
    ensures Utf8.IsAscii("")
  {
  }

  lemma MarkersAscii()
    ensures Utf8.IsAscii(BEGIN) && Utf8.IsAscii(END)
  {
  }

  lemma EmittedAscii(dump: seq<byte>)
    ensures Utf8.IsAscii(Emitted(dump)) && |Emitted(dump)| >= |dump| + 64 && Emitted(dump)[0] == '\r'
  {
    hide AllPlain, Utf8.IsAscii, Lines, Encode;
    var e := Encode(dump);
    EncodeIsPlain(dump);
    EncodeIsLonger(dump);
    LinesAscii(e);
    CrLfAscii();
    MarkersAscii();
    IsAsciiAppend(CRLF, BEGIN);
    IsAsciiAppend(CRLF + BEGIN, CRLF);
    IsAsciiAppend(CRLF + BEGIN + CRLF, Lines(e));
    IsAsciiAppend(CRLF + BEGIN + CRLF + Lines(e), END);
    IsAsciiAppend(CRLF + BEGIN + CRLF + Lines(e) + END, CRLF);
  }

  /** Whatever bytes surround it, the text of a dump is decoded as sent. */
  lemma LogDecodes(dump: seq<byte>, before: seq<byte>, after: seq<byte>)
    ensures Utf8.Decode(Log(dump, before, after)) == Utf8.Decode(before) + Emitted(dump) + Utf8.Decode(after)
  {
    hide Utf8.Decode, Emitted;
    var text := Ascii(Emitted(dump));
    EmittedAscii(dump);
    Utf8.DecodeAscii(Emitted(dump), after);
    Utf8.DecodeAppend(before, text + after);
    assert before + text + after == before + (text + after);
    assert Utf8.Decode(before) + (Emitted(dump) + Utf8.Decode(after))
      == Utf8.Decode(before) + Emitted(dump) + Utf8.Decode(after);
  }

  /** `extract` finds an emitted dump in a log of any bytes, unless a later dump in it is complete. */
  lemma EmittedIsInLog(dump: seq<byte>, before: seq<byte>, after: seq<byte>)
    ensures ExtractOf(Utf8.Decode(Log(dump, before, after)))
      == if ExtractOf(Utf8.Decode(after)) == NoDump then Dump(dump) else ExtractOf(Utf8.Decode(after))
  {
    hide ExtractOf, Utf8.Decode, Emitted;
    LogDecodes(dump, before, after);
    EmittedIsExtracted(dump, Utf8.Decode(before), Utf8.Decode(after));
  }

  /** `load` finds it exactly when the log does not begin as a dump file does. */
  lemma LogLoadsIff(dump: seq<byte>, before: seq<byte>, after: seq<byte>)
    requires ExtractOf(Utf8.Decode(after)) == NoDump
    ensures LoadOf(Log(dump, before, after)) == Dump(dump) <==> !(F.MAGIC <= before)
  {
    hide ExtractOf, Utf8.Decode, Emitted;
    EmittedIsInLog(dump, before, after);
    EmittedAscii(dump);
    var data := Log(dump, before, after);
    assert |data| > |dump|;
    assert Ascii(Emitted(dump))[0] == 0x0D;
    if |before| < 4 {
      assert data[|before|] == 0x0D && F.MAGIC[|before|] != 0x0D;
    } else {
      assert data[..4] == before[..4];
    }
  }
}
