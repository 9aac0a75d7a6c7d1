/** The public file preview with HTTP ranges (app/plugins/file_storage/main.py, public_preview_file):
    how the Range header is read, and what is sent back for it. */
module ByteRange {
  import opened Options
  import opened Text

  type byte = bv8

  datatype Response = Response(status: int, headers: map<string, string>, body: seq<byte>)

  // Python's `int` and `str`

  /** The digits of a literal: decimal digits, with single underscores between them. */
  function Digits(s: string): Option<nat> {
    if s == "" || !IsDigit(s[|s| - 1]) then None
    else
      var d := (s[|s| - 1] - '0') as nat;
      var front := s[..|s| - 1];
      if front == "" then Some(d)
      else
        match Digits(if front[|front| - 1] == '_' then front[..|front| - 1] else front)
        case None => None
        case Some(n) => Some(10 * n + d)
  }

  /** The white space `int` takes: that of `str.strip` without the separators U+001C to U+001F. */
  predicate IsIntSpace(c: char) {
    IsSpace(c) && !('\U{1C}' <= c <= '\U{1F}')
  }

  function Trim(s: string): string {
    if s != "" && IsIntSpace(s[0]) then Trim(s[1..])
    else if s != "" && IsIntSpace(s[|s| - 1]) then Trim(s[..|s| - 1])
    else s
  }

  /** `int(s)`, with None for ValueError. */
  function ParseInt(s: string): Option<int> {
    var t := Trim(s);
    var negative := t != "" && t[0] == '-';
    var n := Digits(if t != "" && t[0] in "+-" then t[1..] else t);
    if n.None? then None else Some(if negative then -(n.value as int) else n.value)
  }

  function PrintNat(n: nat): string {
    var d := [(n % 10) as char + '0'];
    if n < 10 then d else PrintNat(n / 10) + d
  }

  /** `str(i)`. */
  function PrintInt(i: int): string {
    if i < 0 then "-" + PrintNat(-i) else PrintNat(i)
  }

  // The request

  /** First and last byte as the header asks for them, before any clamping. */
  function Requested(header: string, size: nat): Option<(int, int)> {
    var ranges := Split(ReplaceAll(header, "bytes=", ""), "-");
    var start := if ranges[0] != "" then ParseInt(ranges[0]) else Some(0);
    var end := if |ranges| > 1 && ranges[1] != "" then ParseInt(ranges[1]) else Some(size - 1);
    if start.Some? && end.Some? then Some((start.value, end.value)) else None
  }

  function Max(a: int, b: int): int {
    if a < b then b else a
  }

  function Min(a: int, b: int): int {
    if a < b then a else b
  }

  /** Where Python's slice index `i` points in a sequence of length `n`. */
  function Index(i: int, n: nat): (k: nat)
    ensures k <= n
  {
    if i < 0 then Max(0, n + i) else Min(i, n)
  }

  /** Python's `s[lo:hi]`. */
  function Slice(s: seq<byte>, lo: int, hi: int): seq<byte> {
    var from, to := Index(lo, |s|), Index(hi, |s|);
    if from < to then s[from..to] else []
  }

  function Whole(file: seq<byte>, base: map<string, string>): Response {
    Response(200, base["Content-Length" := PrintInt(|file|)], file)
  }

  /** The 206 answer for the bytes `start` to `end`. */
  function Partial(file: seq<byte>, base: map<string, string>, start: int, end: int): Response {
    var range := "bytes " + PrintInt(start) + "-" + PrintInt(end) + "/" + PrintInt(|file|);
    Response(206, base["Content-Range" := range]["Content-Length" := PrintInt(end - start + 1)],
             Slice(file, start, end + 1))
  }

  function Served(file: seq<byte>, base: map<string, string>, header: Option<string>): Response {
    if header in {None, Some("")} then Whole(file, base)
    else
      match Requested(header.value, |file|)
      case None => Whole(file, base)
      case Some((start, end)) => Partial(file, base, Max(start, 0), Min(end, |file| - 1))
  }

  /** The end of public_preview_file, after the base headers of the file are known. */
  method PublicPreview(file: seq<byte>, base: map<string, string>, header: Option<string>)
    returns (response: Response)
    ensures response == Served(file, base, header)
  {
    hide ReplaceAll, Split, ParseInt, PrintInt, Slice;
    var headers, size := base, |file|;
    if header in {None, Some("")} {
      headers := headers["Content-Length" := PrintInt(size)];
      return Response(200, headers, file);
    }
    var range := ReplaceAll(header.value, "bytes=", "");
    var ranges := Split(range, "-");
    var start, end := Some(0), Some(size - 1);
    if ranges[0] != "" { start := ParseInt(ranges[0]); }
    if |ranges| > 1 && ranges[1] != "" { end := ParseInt(ranges[1]); }
    if start.None? || end.None? {
      headers := headers["Content-Length" := PrintInt(size)];
      return Response(200, headers, file);
    }
    var first, last := start.value, end.value;
    if first < 0 { first := 0; }
    if last >= size { last := size - 1; }
    var chunkSize := last - first + 1;
    headers := headers["Content-Range" :=
      "bytes " + PrintInt(first) + "-" + PrintInt(last) + "/" + PrintInt(size)];
    headers := headers["Content-Length" := PrintInt(chunkSize)];
    var chunk := Slice(file, first, last + 1);
    return Response(206, headers, chunk);
  }

  // Numbers survive printing and parsing

  lemma {:induction false} PrintNatShape(n: nat)
    ensures PrintNat(n) != "" && forall c | c in PrintNat(n) :: IsDigit(c)
  {
    if n >= 10 { PrintNatShape(n / 10); }
  }

  lemma {:induction false} PrintDigits(n: nat)
    ensures Digits(PrintNat(n)) == Some(n)
  {
    var s := PrintNat(n);
    PrintNatShape(n);
    assert s[|s| - 1] in s && s[|s| - 1] == (n % 10) as char + '0';
    if n >= 10 {
      var front := PrintNat(n / 10);
      assert s[..|s| - 1] == front;
      PrintNatShape(n / 10);
      assert front[|front| - 1] in front;
      PrintDigits(n / 10);
    }
  }

  lemma NothingToTrim(s: string)
    requires s != "" && !IsIntSpace(s[0]) && !IsIntSpace(s[|s| - 1])
    ensures Trim(s) == s
  {
  }

  lemma PrintNatThenParse(n: nat)
    ensures ParseInt(PrintNat(n)) == Some(n)
  {
    var s := PrintNat(n);
    hide PrintNat, Digits, Trim;
    PrintNatShape(n);
    PrintDigits(n);
    assert s[0] in s && s[|s| - 1] in s;
    NothingToTrim(s);
  }

  lemma PrintThenParse(i: int)
    ensures ParseInt(PrintInt(i)) == Some(i)
  {
    if i >= 0 {
      PrintNatThenParse(i);
    } else {
      var digits := PrintNat(-i);
      hide PrintNat, Digits, Trim;
      PrintNatShape(-i);
      PrintDigits(-i);
      var s := "-" + digits;
      assert s[|s| - 1] == digits[|digits| - 1] && digits[|digits| - 1] in digits;
      NothingToTrim(s);
      assert s[1..] == digits;
    }
  }

  /** Decimal digits, with underscores only between two of them. */
  ghost predicate IsNumeral(s: string) {
    && s != "" && IsDigit(s[0]) && IsDigit(s[|s| - 1])
    && (forall i | 0 <= i < |s| :: IsDigit(s[i]) || s[i] == '_')
    && (forall i | 0 < i < |s| && s[i] == '_' :: s[i - 1] != '_')
  }

  lemma {:induction false} DigitsReadable(s: string)
    ensures Digits(s).Some? <==> IsNumeral(s)
    decreases |s|
  {
    if s != "" && IsDigit(s[|s| - 1]) {
      var front := s[..|s| - 1];
      if front != "" {
        var rest := if front[|front| - 1] == '_' then front[..|front| - 1] else front;
        DigitsReadable(rest);
        assert rest == s[..|rest|];
      }
    }
  }

  /** A text is a number, and no ValueError, exactly when it is a numeral with at most one sign before
      it and white space around it. */
  lemma ReadableExactly(s: string)
    ensures ParseInt(s).Some? <==>
              var t := Trim(s); IsNumeral(t) || (t != "" && t[0] in "+-" && IsNumeral(t[1..]))
  {
    var t := Trim(s);
    hide Digits, Trim;
    DigitsReadable(t);
    if t != "" { DigitsReadable(t[1..]); }
  }

  // Reading back a range

  lemma {:induction false} TrimKeeps(s: string, c: char)
    requires c !in s
    ensures c !in Trim(s)
    decreases |s|
  {
    if s != "" && IsIntSpace(s[0]) { TrimKeeps(s[1..], c); }
    else if s != "" && IsIntSpace(s[|s| - 1]) { TrimKeeps(s[..|s| - 1], c); }
  }

  /** No header asks for a negative position, since the dash separates the bounds. */
  lemma RequestedNonNegative(header: string, size: nat)
    ensures Requested(header, size).Some? ==>
              Requested(header, size).value.0 >= 0 && Requested(header, size).value.1 >= -1
    ensures size > 0 && Requested(header, size).Some? ==> Requested(header, size).value.1 >= 0
  {
    var ranges := Split(ReplaceAll(header, "bytes=", ""), "-");
    SplitLacks(ReplaceAll(header, "bytes=", ""), '-');
    TrimKeeps(ranges[0], '-');
    if |ranges| > 1 { TrimKeeps(ranges[1], '-'); }
  }

  function Bound(n: Option<nat>): string {
    match n
    case None => ""
    case Some(k) => PrintNat(k)
  }

  /** The header `bytes=first-last`; either bound may be left out. */
  function RangeHeader(first: Option<nat>, last: Option<nat>): string {
    "bytes=" + Bound(first) + "-" + Bound(last)
  }

  lemma BoundShape(n: Option<nat>)
    ensures forall c | c in Bound(n) :: IsDigit(c)
    ensures n.None? ==> Bound(n) == ""
    ensures n.Some? ==> Bound(n) != "" && ParseInt(Bound(n)) == Some(n.value)
  {
    if n.Some? {
      PrintNatShape(n.value);
      PrintNatThenParse(n.value);
    }
  }

  lemma DropUnit(rest: string)
    requires 'b' !in rest
    ensures ReplaceAll("bytes=" + rest, "bytes=", "") == rest
  {
    var unit, s := "bytes=", "bytes=" + rest;
    assert s[|unit|..] == rest;
    forall i | 0 <= i <= |rest| - |unit|
      ensures !OccursAt(unit, rest, i)
    {
      assert rest[i..i + |unit|][0] == rest[i];
    }
    ReplaceAbsent(rest, unit, "");
  }

  /** A printed header is read back to its bounds, or to the whole file where one is left out. */
  lemma RangeReadBack(first: Option<nat>, last: Option<nat>, size: nat)
    ensures Requested(RangeHeader(first, last), size)
         == Some((if first.Some? then first.value else 0, if last.Some? then last.value else size - 1))
  {
    var f, l := Bound(first), Bound(last);
    hide ParseInt, Bound, Split, ReplaceAll;
    BoundShape(first);
    BoundShape(last);
    assert RangeHeader(first, last) == "bytes=" + (f + "-" + l);
    DropUnit(f + "-" + l);
    assert Join([f, l], "-") == f + "-" + l;
    SplitJoin([f, l], "-");
  }

  // What is sent back

  lemma PrintIntInjective(i: int, j: int)
    ensures PrintInt(i) == PrintInt(j) <==> i == j
  {
    PrintThenParse(i);
    PrintThenParse(j);
  }

  /** A range that starts inside the file and is not reversed is answered with exactly its bytes,
      the last bound clamped to the file, and with headers that say so. */
  lemma RangeAnswered(file: seq<byte>, base: map<string, string>, a: nat, b: Option<nat>)
    requires a < |file| && (b.Some? ==> a <= b.value)
    ensures var e := if b.Some? then Min(b.value, |file| - 1) else |file| - 1;
            var r := Served(file, base, Some(RangeHeader(Some(a), b)));
            r.status == 206 && r.body == file[a..e + 1]
            && r.headers["Content-Range"] == "bytes " + PrintInt(a) + "-" + PrintInt(e) + "/" + PrintInt(|file|)
            && r.headers["Content-Length"] == PrintInt(|r.body|)
  {
    hide Requested, PrintInt, Bound;
    RangeReadBack(Some(a), b, |file|);
  }

  /** For every header that can be read, the announced length is the length of the body exactly when
      the clamped range does not start more than one byte past its end. */
  lemma LengthHonest(file: seq<byte>, base: map<string, string>, header: string)
    requires header != "" && Requested(header, |file|).Some?
    ensures var r := Served(file, base, Some(header));
            var (start, end) := Requested(header, |file|).value;
            r.headers["Content-Length"] == PrintInt(|r.body|) <==> start <= Min(end, |file| - 1) + 1
  {
    hide Requested, PrintInt;
    RequestedNonNegative(header, |file|);
    var (start, end) := Requested(header, |file|).value;
    var e := Min(end, |file| - 1);
    PrintIntInjective(e - start + 1, |Slice(file, start, e + 1)|);
  }

  /** A range that starts past the end is answered with 206, no bytes, and a length that is zero or
      negative; the length is right only if the start is the size of the file. */
  lemma PastTheEnd(file: seq<byte>, base: map<string, string>, a: nat)
    requires |file| <= a
    ensures var r := Served(file, base, Some(RangeHeader(Some(a), None)));
            r.status == 206 && r.body == [] && r.headers["Content-Length"] == PrintInt(|file| - a)
            && (r.headers["Content-Length"] == PrintInt(|r.body|) <==> a == |file|)
  {
    hide Requested, PrintInt, Bound;
    RangeReadBack(Some(a), None, |file|);
    PrintIntInjective(|file| - a, 0);
  }

  /** `bytes=2-` of a file of one byte: Content-Length is -1. */
  lemma PastTheEndOfOneByte(b: byte, base: map<string, string>)
    ensures var r := Served([b], base, Some("bytes=2-"));
            r.status == 206 && r.body == [] && r.headers["Content-Length"] == "-1"
  {
    PrintedHeader();
    hide Served, RangeHeader, PrintInt;
    PastTheEnd([b], base, 2);
  }

  lemma PrintedHeader()
    ensures RangeHeader(Some(2), None) == "bytes=2-" && PrintInt(-1) == "-1"
  {
    assert PrintNat(2) == "2" && PrintNat(1) == "1";
  }

  /** RFC 9110 section 14.1.2: `bytes=-n` asks for the last `n` bytes. The first `n + 1` are sent, which
      are the ones asked for exactly when the file has no more than `n` bytes. */
  lemma SuffixRange(file: seq<byte>, base: map<string, string>, n: nat)
    ensures var r := Served(file, base, Some(RangeHeader(None, Some(n))));
            r.status == 206 && r.body == file[..Min(n + 1, |file|)]
            && (r.body == file[Max(0, |file| - n)..] <==> |file| <= n)
  {
    hide Requested, PrintInt, Bound;
    RangeReadBack(None, Some(n), |file|);
    var r := Served(file, base, Some(RangeHeader(None, Some(n))));
    assert |r.body| == Min(n + 1, |file|);
    assert |file[Max(0, |file| - n)..]| == Min(n, |file|);
  }

  predicate Increasing(cuts: seq<nat>) {
    forall i, j | 0 <= i < j < |cuts| :: cuts[i] < cuts[j]
  }

  /** The first `n` answers to the ranges that the cut points delimit, put together. */
  function Downloaded(file: seq<byte>, base: map<string, string>, cuts: seq<nat>, n: nat): seq<byte>
    requires n < |cuts|
    requires Increasing(cuts)
  {
    if n == 0 then []
    else
      Downloaded(file, base, cuts, n - 1)
      + Served(file, base, Some(RangeHeader(Some(cuts[n - 1]), Some(cuts[n] - 1)))).body
  }

  /** Consecutive ranges from the first byte on, the last one reaching or passing the end, put
      together are the file. */
  lemma RangesReassemble(file: seq<byte>, base: map<string, string>, cuts: seq<nat>)
    requires |cuts| > 0 && cuts[0] == 0 && Increasing(cuts)
    requires forall i | 0 <= i < |cuts| :: cuts[i] < |file| <==> i < |cuts| - 1
    ensures Downloaded(file, base, cuts, |cuts| - 1) == file
  {
    hide Downloaded, Served, Increasing;
    var last := cuts[|cuts| - 1];
    DownloadedPrefix(file, base, cuts, |cuts| - 1);
    assert file[..Min(last, |file|)] == file;
  }

  lemma {:induction false} DownloadedPrefix(file: seq<byte>, base: map<string, string>, cuts: seq<nat>, n: nat)
    requires n < |cuts| && cuts[0] == 0 && Increasing(cuts)
    requires forall i | 0 <= i < |cuts| - 1 :: cuts[i] < |file|
    ensures Downloaded(file, base, cuts, n) == file[..Min(cuts[n], |file|)]
  {
    hide Served, RangeHeader, PrintInt;
    if n > 0 {
      DownloadedPrefix(file, base, cuts, n - 1);
      RangeAnswered(file, base, cuts[n - 1], Some(cuts[n] - 1));
      var k, e := cuts[n - 1], Min(cuts[n] - 1, |file| - 1);
      assert file[..k] + file[k..e + 1] == file[..e + 1];
    }
  }
}
