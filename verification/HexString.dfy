/** The HexString of src/middleware/api.rs: construction, printing of bytes, and writing into
    the tail of a buffer, with the padding scan exactly as the code performs it. */
module HexStrings {
  import opened Bits
  import opened Outcomes
  import opened HexSpec

  type HexString = s: string | ValidHex(s) witness ""

  /** b at the right end of n bytes: padded with zeros, or the last n bytes of it. */
  function RightAlign(b: seq<byte>, n: nat): (r: seq<byte>)
    ensures |r| == n
    ensures forall p | 0 <= p < n :: r[p] == if |b| - n + p >= 0 then b[|b| - n + p] else 0
  {
    if |b| <= n then Zeros(n - |b|) + b else b[|b| - n..]
  }

  function FromBytesOf(buf: seq<byte>, len: nat): Outcome<HexString, HexStringError> {
    if |buf| - FirstNonZero(buf, 0) <= len then Ok(Digits(RightAlign(buf, len))) else Err(BufferTooSmall)
  }

  lemma DropZeros(b: seq<byte>, d: nat)
    requires d <= FirstNonZero(b, 0)
    ensures BeValue(b[d..]) == BeValue(b)
  {
    assert b == b[..d] + b[d..];
    BeLeadingZeros(b[..d], b[d..]);
  }

  /** Dropping zero bytes or adding them at the front keeps the number. */
  lemma {:induction false} RightAlignValue(b: seq<byte>, n: nat)
    requires |b| - FirstNonZero(b, 0) <= n
    ensures BeValue(RightAlign(b, n)) == BeValue(b)
  {
    if |b| <= n {
      var z := Zeros(n - |b|);
      assert RightAlign(b, n) == z + b;
      BeLeadingZeros(z, b);
    } else {
      var d := |b| - n;
      assert RightAlign(b, n) == b[d..];
      DropZeros(b, d);
    }
  }

  /** from_bytes fails exactly when the number does not fit in len bytes; otherwise it yields
      2 * len lower-case digits that denote the same number. */
  lemma FromBytesIsNumeric(buf: seq<byte>, len: nat)
    ensures FromBytesOf(buf, len) == Err(BufferTooSmall) <==> BeValue(buf) >= Pow256(len)
    ensures BeValue(buf) < Pow256(len) ==> var r := FromBytesOf(buf, len);
      r.Ok? && |r.value| == 2 * len && HexValue(r.value) == BeValue(buf) && Lowercase(r.value) == r.value
  {
    FitsIsNumeric(buf, len);
    if |buf| - FirstNonZero(buf, 0) <= len {
      RightAlignValue(buf, len);
      DigitsValue(RightAlign(buf, len));
      BytesOfDigits(RightAlign(buf, len));
      DigitsOfBytes(Digits(RightAlign(buf, len)));
    }
  }

  method New(value: string) returns (r: Outcome<HexString, HexStringError>)
    ensures r.Ok? <==> forall c | c in value :: c in "0123456789abcdefABCDEF"
    ensures !r.Ok? ==> r == Err(InvalidCharacter)
    ensures r.Ok? ==> r.value == (if |value| % 2 == 0 then value else "0" + value)
    ensures r.Ok? ==> |r.value| % 2 == 0 && HexValue(r.value) == HexValue(value)
  {
    for i := 0 to |value|
      invariant AllHex(value[..i])
    {
      if !IsHex(value[i]) {
        HexDigits(value[i]);
        return Err(InvalidCharacter);
      }
    }
    assert value[..|value|] == value;
    OnlyHexDigits(value);
    if |value| % 2 == 0 {
      r := Ok(value);
    } else {
      var dst := seq(|value| + 1, _ => '0');
      dst := dst[..1] + value;
      assert dst == "0" + value;
      HexLeadingZero(value);
      r := Ok(dst);
    }
  }

  lemma OnlyHexDigits(s: string)
    requires AllHex(s)
    ensures forall c | c in s :: c in "0123456789abcdefABCDEF"
  {
    forall c | c in s ensures c in "0123456789abcdefABCDEF" { HexDigits(c); }
  }

  lemma {:induction false} HexLeadingZero(s: string)
    ensures HexValue("0" + s) == HexValue(s)
  {
    var z := "0" + s;
    if s == "" {
      assert z[..|z| - 1] == "";
    } else {
      assert z[..|z| - 1] == "0" + s[..|s| - 1];
      HexLeadingZero(s[..|s| - 1]);
    }
  }

  method FromBytes(buf: seq<byte>, len: nat) returns (r: Outcome<HexString, HexStringError>)
    ensures r == FromBytesOf(buf, len)
  {
    var start := 0;
    if len < |buf| {
      var padEnd := PaddingEnd(buf);
      if len < |buf| - padEnd {
        return Err(BufferTooSmall);
      }
      start := padEnd;
    }
    var encoded := PrintPadded(buf, start, len);
    r := Ok(encoded);
  }

  method PaddingEnd(buf: seq<byte>) returns (padEnd: nat)
    ensures padEnd == FirstNonZero(buf, 0)
  {
    padEnd := |buf|;
    for i := 0 to |buf|
      invariant padEnd == |buf| && FirstNonZero(buf, 0) == FirstNonZero(buf, i)
    {
      if buf[i] != 0 {
        padEnd := i;
        break;
      }
    }
  }

  /** Prints buf[start..] in two digits a byte, after as many zero bytes as len asks for. */
  method PrintPadded(buf: seq<byte>, start: nat, len: nat) returns (encoded: string)
    requires start <= |buf| && |buf| - start <= len
    requires forall k | 0 <= k < start :: buf[k] == 0
    ensures encoded == Digits(RightAlign(buf, len))
  {
    ghost var tail := RightAlign(buf, len);
    encoded := "";
    var padLen := len - (|buf| - start);
    for i := 0 to len
      invariant encoded == Digits(tail[..i])
    {
      DigitsPrefix(tail, i);
      PaddedByte(buf, start, len, i);
      if i < padLen {
        encoded := encoded + "00";
      } else {
        encoded := encoded + ByteDigits(buf[i - padLen + start]);
      }
    }
    assert tail[..len] == tail;
  }

  /** What stands at byte i of the padded buffer. */
  lemma PaddedByte(buf: seq<byte>, start: nat, len: nat, i: nat)
    requires start <= |buf| && |buf| - start <= len && i < len
    requires forall k | 0 <= k < start :: buf[k] == 0
    ensures var padLen := len - (|buf| - start);
      ByteDigits(RightAlign(buf, len)[i]) == if i < padLen then "00" else ByteDigits(buf[i - padLen + start])
  {
    assert ByteDigits(0) == "00";
  }

  lemma DigitsPrefix(b: seq<byte>, i: nat)
    requires i < |b|
    ensures Digits(b[..i + 1]) == Digits(b[..i]) + ByteDigits(b[i])
  {
    assert b[..i + 1] == b[..i] + [b[i]];
    DigitsAppend(b[..i], b[i]);
  }

  // ----- the padding scan of decode_into_slice

  datatype ScanEnd = Stop(k: nat) | Exhausted | OutOfRange

  /** The scan for leading zero pairs compares digit i and digit i + i, not i + 1, and so may
      stop early, run past a significant digit, or index past the end of the string. */
  function Scan(s: string, i: nat): (e: ScanEnd)
    ensures e.Stop? ==> i <= e.k < |s| && e.k % 2 == i % 2
    decreases |s| - i
  {
    if i >= |s| then Exhausted
    else if s[i] != '0' then Stop(i)
    else if i + i >= |s| then OutOfRange
    else if s[i + i] != '0' then Stop(i)
    else Scan(s, i + 2)
  }

  /** What decode_into_slice leaves in a slice of n bytes, or how it ends. */
  function SliceDecode(s: HexString, n: nat): Outcome<seq<byte>, HexStringError> {
    if |s| <= 2 * n then Ok(RightAlign(BytesOf(s), n))
    else match Scan(s, 0)
      case Stop(k) => if 2 * n < |s| - k then Err(BufferTooSmall) else Ok(RightAlign(BytesOf(s[k..]), n))
      case Exhausted => Err(BufferTooSmall)
      case OutOfRange => Panic
  }

  lemma {:induction false} ExhaustedIsShort(s: string, i: nat)
    requires i % 2 == 0 && |s| % 2 == 0 && i <= |s| && Scan(s, i).Exhausted?
    ensures i < |s| ==> 2 * (|s| - 2) < |s|
    decreases |s| - i
  {
    if i < |s| { ExhaustedIsShort(s, i + 2); }
  }

  /** The slice from..to is overwritten with the value of d and nothing else changes, or d is an
      error or a panic, r is that, and nothing changes. */
  ghost predicate Filled(before: seq<byte>, after: seq<byte>, from: nat, to: nat,
                         d: Outcome<seq<byte>, HexStringError>, r: Outcome<(), HexStringError>)
    requires from <= to <= |before|
  {
    if d.Ok? then r == Ok(()) && after == before[..from] + d.value + before[to..]
    else r == (if d.Err? then Err(d.error) else Panic) && after == before
  }

  /** Writes into the slice buf[from..to]; nothing is written unless the call succeeds. */
  method DecodeIntoSlice(s: HexString, buf: array<byte>, from: nat, to: nat) returns (r: Outcome<(), HexStringError>)
    requires from <= to <= buf.Length
    modifies buf
    ensures Filled(old(buf[..]), buf[..], from, to, SliceDecode(s, to - from), r)
  {
    var n := to - from;
    var start := 0;
    if n * 2 < |s| {
      var pad := SkipPadding(s, n);
      if pad.Panic? {
        return Panic;
      }
      if n * 2 < |s| - pad.value {
        return Err(BufferTooSmall);
      }
      start := pad.value;
    }
    assert s[0..] == s;
    WriteTail(s, start, buf, from, to);
    r := Ok(());
  }

  /** The scan loop: the even index it stops at, or n when it stops nowhere. */
  method SkipPadding(s: HexString, n: nat) returns (r: Outcome<nat, HexStringError>)
    requires n * 2 < |s|
    ensures match Scan(s, 0)
      case Stop(k) => r == Ok(k) && k % 2 == 0
      case Exhausted => r == Ok(n) && n * 2 < |s| - n
      case OutOfRange => r == Panic
  {
    var padEnd := n;
    var i := 0;
    while i < |s|
      invariant i % 2 == 0 && i <= |s| && padEnd == n
      invariant Scan(s, 0) == Scan(s, i)
      decreases |s| - i
    {
      if s[i] == '0' && i + i >= |s| {
        return Panic;
      }
      if s[i] != '0' || s[i + i] != '0' {
        padEnd := i;
        break;
      }
      i := i + 2;
    }
    if i >= |s| { ExhaustedIsShort(s, 0); }
    r := Ok(padEnd);
  }

  /** Byte i from the end of a slice holding the digits from start on. */
  function TailByte(s: HexString, start: nat, i: nat): byte {
    var at: int := |s| - 2 * i - 2;
    if at >= start then PairByte(s[at], s[at + 1]) else 0x00
  }

  /** What the writing loop leaves in the last i bytes. */
  function TailBytes(s: HexString, start: nat, i: nat): (t: seq<byte>)
    ensures |t| == i
  {
    if i == 0 then [] else [TailByte(s, start, i - 1)] + TailBytes(s, start, i - 1)
  }

  /** The writing loop, from the last byte of the slice to its first. */
  method WriteTail(s: HexString, start: nat, buf: array<byte>, from: nat, to: nat)
    requires from <= to <= buf.Length && start <= |s| && start % 2 == 0
    modifies buf
    ensures buf[..] == old(buf[..from]) + RightAlign(BytesOf(s[start..]), to - from) + old(buf[to..])
  {
    ghost var before := buf[..];
    for i := 0 to to - from
      invariant buf[..] == before[..to - i] + TailBytes(s, start, i) + before[to..]
    {
      var at: int := |s| - 2 * i - 2;
      var value: byte := if at >= start then PairByte(s[at], s[at + 1]) else 0x00;
      TailNext(s, start, i, value);
      OneByteMore(buf[..], before, TailBytes(s, start, i), to, value);
      ghost var was := buf[..];
      buf[to - i - 1] := value;
      assert buf[..] == was[to - i - 1 := value];
    }
    TailIsRightAligned(s, start, to - from);
  }

  lemma TailNext(s: HexString, start: nat, i: nat, value: byte)
    requires value == TailByte(s, start, i)
    ensures TailBytes(s, start, i + 1) == [value] + TailBytes(s, start, i)
  {
  }

  lemma OneByteMore(now: seq<byte>, before: seq<byte>, tail: seq<byte>, to: nat, value: byte)
    requires |tail| < to <= |before| && now == before[..to - |tail|] + tail + before[to..]
    ensures |now| == |before|
    ensures now[to - |tail| - 1 := value] == before[..to - |tail| - 1] + ([value] + tail) + before[to..]
  {
  }

  lemma TailIsRightAligned(s: HexString, start: nat, n: nat)
    requires start <= |s| && start % 2 == 0
    ensures TailBytes(s, start, n) == RightAlign(BytesOf(s[start..]), n)
  {
    forall i: nat | i < n ensures TailByte(s, start, i) == FromEnd(BytesOf(s[start..]), i) {
      TailByteAligned(s, start, i);
    }
    TailFromBytes(s, start, BytesOf(s[start..]), n);
  }

  lemma {:induction false} TailFromBytes(s: HexString, start: nat, b: seq<byte>, n: nat)
    requires forall i: nat | i < n :: TailByte(s, start, i) == FromEnd(b, i)
    ensures TailBytes(s, start, n) == RightAlign(b, n)
  {
    if n > 0 {
      TailFromBytes(s, start, b, n - 1);
      AlignNext(b, n - 1);
    }
  }

  /** Byte i from the end of a right-aligned buffer. */
  function FromEnd(b: seq<byte>, i: nat): byte { if i < |b| then b[|b| - i - 1] else 0 }

  lemma AlignNext(b: seq<byte>, i: nat)
    ensures RightAlign(b, i + 1) == [FromEnd(b, i)] + RightAlign(b, i)
  {
  }

  lemma TailByteAligned(s: HexString, start: nat, i: nat)
    requires start <= |s| && start % 2 == 0
    ensures TailByte(s, start, i) == FromEnd(BytesOf(s[start..]), i)
  {
    var u := s[start..];
    var at, q: int := |s| - 2 * i - 2, |BytesOf(u)| - i - 1;
    assert at == start + 2 * q;
    if q >= 0 {
      assert BytesOf(u)[q] == PairValue(u, q) == PairByte(s[at], s[at + 1]);
    }
  }

  /** decode never fails: its buffer is exactly as long as the value. */
  method Decode(s: HexString) returns (bytes: seq<byte>)
    ensures bytes == BytesOf(s)
    ensures |bytes| == |s| / 2 && BeValue(bytes) == HexValue(s)
  {
    var buf := new byte[|s| / 2](_ => 0);
    var r := DecodeIntoSlice(s, buf, 0, buf.Length);
    HexValueIsBeValue(s);
    assert r == Ok(());
    bytes := buf[..];
  }

  /** A slice as long as the value takes its bytes unchanged. */
  lemma ExactSlice(s: HexString)
    ensures SliceDecode(s, |s| / 2) == Ok(BytesOf(s))
  {
    assert RightAlign(BytesOf(s), |s| / 2) == BytesOf(s);
  }

  lemma WholeBuffer(b: seq<byte>)
    ensures FromBytesOf(b, |b|) == Ok(Digits(b))
  {
    assert RightAlign(b, |b|) == b;
  }

  /** Printing a whole buffer and decoding gives the buffer; decoding a HexString and printing
      gives it in lower case. */
  lemma HexRoundTrips(b: seq<byte>, h: HexString)
    ensures FromBytesOf(b, |b|).Ok? && BytesOf(FromBytesOf(b, |b|).value) == b
    ensures FromBytesOf(BytesOf(h), |h| / 2) == Ok(Lowercase(h))
  {
    WholeBuffer(b);
    BytesOfDigits(b);
    WholeBuffer(BytesOf(h));
    DigitsOfBytes(h);
  }

  // ----- what the scan should decide, and exactly when it does

  /** The documented behaviour: fail when the significant bytes do not fit, otherwise the value
      right-aligned and zero-padded. */
  function Documented(s: HexString, n: nat): Outcome<seq<byte>, HexStringError> {
    if |s| / 2 - FirstNonZero(BytesOf(s), 0) <= n then Ok(RightAlign(BytesOf(s), n)) else Err(BufferTooSmall)
  }

  lemma DocumentedIsNumeric(s: HexString, n: nat)
    ensures Documented(s, n).Ok? <==> HexValue(s) < Pow256(n)
    ensures Documented(s, n).Ok? ==> |Documented(s, n).value| == n && BeValue(Documented(s, n).value) == HexValue(s)
  {
    HexValueIsBeValue(s);
    FitsIsNumeric(BytesOf(s), n);
    if Documented(s, n).Ok? { RightAlignValue(BytesOf(s), n); }
  }

  predicate AllZeroDigits(s: string) { forall i | 0 <= i < |s| :: s[i] == '0' }

  /** The first of the positions i, i + step, ... that holds a digit other than 0, or |s|. */
  function FirstDigit(s: string, i: nat, step: nat): (k: nat)
    requires step > 0
    ensures k < |s| ==> i <= k && s[k] != '0'
    ensures k <= |s|
    decreases |s| - i
  {
    if i >= |s| then |s| else if s[i] != '0' then i else FirstDigit(s, i + step, step)
  }

  /** How far the scan gets, from the digits alone: the first even position with a digit other
      than 0, or half the first such position divisible by four, if that is smaller. */
  function Reach(s: string): nat { ReachFrom(s, 0) }

  /** The same from an even position on. */
  function ReachFrom(s: string, i: nat): nat {
    var even, fourth := FirstDigit(s, i, 2), FirstDigit(s, 2 * i, 4);
    if fourth < |s| && fourth / 2 < even then fourth / 2 else even
  }

  /** The smallest even position whose double lies past the end. */
  function Middle(s: string): nat { 2 * ((|s| + 3) / 4) }

  /** A slice of at least half the digits is always filled as documented. A shorter one drops
      the first `drop` digits. A single byte cannot be dropped unless it is not zero. Of longer
      values the scan must get no further than the middle, and must then get as far as the
      dropped digits over zeros only, or less far when one of them is not zero. */
  predicate SliceSound(s: string, n: nat) {
    || |s| <= 2 * n
    || (|s| == 2 && s != "00")
    || (|s| >= 4 && Reach(s) <= Middle(s) &&
        var drop := |s| - 2 * n;
        if Reach(s) >= drop then AllZeroDigits(s[..Reach(s)]) else !AllZeroDigits(s[..drop]))
  }

  /** Over two zeros the scan goes on to the same end. */
  lemma ReachStep(s: string, i: nat)
    requires 2 * i < |s| && s[i] == '0' && s[2 * i] == '0'
    ensures ReachFrom(s, i) == ReachFrom(s, i + 2)
    ensures Scan(s, i) == Scan(s, i + 2)
  {
    assert FirstDigit(s, 2 * i, 4) == FirstDigit(s, 2 * i + 4, 4);
  }

  /** At a digit other than 0 it stops. */
  lemma ReachHere(s: string, i: nat)
    requires i < |s| && (s[i] != '0' || (2 * i < |s| && s[2 * i] != '0'))
    ensures ReachFrom(s, i) == i && Scan(s, i) == Stop(i)
  {
    if s[i] == '0' {
      assert FirstDigit(s, 2 * i, 4) == 2 * i;
    }
  }

  /** Over a zero in the second half it leaves the string. */
  lemma ReachBeyond(s: string, i: nat)
    requires i < |s| <= 2 * i && s[i] == '0'
    ensures ReachFrom(s, i) > i && Scan(s, i) == OutOfRange
  {
    assert FirstDigit(s, i, 2) == FirstDigit(s, i + 2, 2);
  }

  /** From an even position up to the middle 2 * k on, the scan stops at the smaller of the two
      positions, or leaves the string if both lie beyond the middle. */
  lemma {:induction false} ScanFrom(s: string, h: nat, k: nat)
    requires h <= k && 2 * k < |s| <= 4 * k < |s| + 4
    ensures Scan(s, 2 * h) == if ReachFrom(s, 2 * h) <= 2 * k then Stop(ReachFrom(s, 2 * h)) else OutOfRange
    decreases k - h
  {
    var i := 2 * h;
    if s[i] != '0' || (2 * i < |s| && s[2 * i] != '0') {
      ReachHere(s, i);
    } else if 2 * i < |s| {
      ReachStep(s, i);
      assert i + 2 == 2 * (h + 1);
      ScanFrom(s, h + 1, k);
    } else {
      ReachBeyond(s, i);
    }
  }

  lemma ScanOutcome(s: HexString)
    ensures |s| >= 4 ==> Scan(s, 0) == if Reach(s) <= Middle(s) then Stop(Reach(s)) else OutOfRange
    ensures |s| == 2 && s[0] != '0' ==> Scan(s, 0) == Stop(0)
    ensures |s| == 2 && s[0] == '0' ==> Scan(s, 0) == Exhausted
  {
    if |s| >= 4 {
      ScanFrom(s, 0, (|s| + 3) / 4);
    } else if |s| == 2 {
      assert Scan(s, 2) == Exhausted;
    }
  }

  lemma ZeroPrefix(s: HexString, k: nat)
    requires 2 * k <= |s|
    ensures FirstNonZero(BytesOf(s), 0) >= k <==> AllZeroDigits(s[..2 * k])
  {
    var b := BytesOf(s);
    if FirstNonZero(b, 0) >= k {
      forall i | 0 <= i < 2 * k ensures s[i] == '0' {
        assert b[i / 2] == PairValue(s, i / 2) == 0;
        ZeroPair(s[2 * (i / 2)], s[2 * (i / 2) + 1]);
      }
    } else {
      var f := FirstNonZero(b, 0);
      assert b[f] == PairValue(s, f);
      ZeroPair(s[2 * f], s[2 * f + 1]);
      assert s[..2 * k][2 * f] == s[2 * f] && s[..2 * k][2 * f + 1] == s[2 * f + 1];
    }
  }

  lemma ZeroPair(hi: char, lo: char)
    requires IsHex(hi) && IsHex(lo)
    ensures PairByte(hi, lo) == 0 <==> hi == '0' && lo == '0'
  {
  }

  lemma BytesDrop(s: HexString, k: nat)
    requires k % 2 == 0 && k <= |s|
    ensures BytesOf(s[k..]) == BytesOf(s)[k / 2..]
  {
    var t := s[k..];
    forall q | 0 <= q < |t| / 2 ensures BytesOf(t)[q] == BytesOf(s)[k / 2 + q] {
      assert PairValue(t, q) == PairValue(s, k / 2 + q);
    }
  }

  /** When the scan lets the call succeed, the result is the documented one exactly when only
      zeros were skipped. */
  lemma StopBeyond(s: HexString, n: nat, k: nat)
    requires k % 2 == 0 && |s| - 2 * n <= k <= |s| && |s| > 2 * n
    ensures Documented(s, n) == Ok(RightAlign(BytesOf(s[k..]), n)) <==> AllZeroDigits(s[..k])
  {
    var b, d := BytesOf(s), |s| / 2 - n;
    BytesDrop(s, k);
    ZeroPrefix(s, k / 2);
    assert 2 * (k / 2) == k;
    SkippedZeros(b, n, k / 2);
  }

  lemma SkippedZeros(b: seq<byte>, n: nat, q: nat)
    requires |b| > n && |b| - n <= q <= |b|
    ensures FirstNonZero(b, 0) >= |b| - n && RightAlign(b, n) == RightAlign(b[q..], n) <==> FirstNonZero(b, 0) >= q
  {
    var f, d := FirstNonZero(b, 0), |b| - n;
    if f >= q {
      SkipToZeros(b, n, q);
    } else if f >= d {
      assert RightAlign(b, n)[f - d] == b[f] != 0;
      assert RightAlign(b[q..], n)[f - d] == 0;
    }
  }

  lemma SkipToZeros(b: seq<byte>, n: nat, q: nat)
    requires |b| > n && |b| - n <= q <= FirstNonZero(b, 0)
    ensures RightAlign(b[q..], n) == RightAlign(b, n)
  {
    assert b[|b| - n..] == b[|b| - n..q] + b[q..];
    assert b[|b| - n..q] == Zeros(n - |b[q..]|);
  }

  lemma DocumentedFits(s: HexString, n: nat)
    requires |s| > 2 * n
    ensures Documented(s, n).Ok? <==> AllZeroDigits(s[..|s| - 2 * n])
  {
    var drop := |s| - 2 * n;
    assert 2 * (drop / 2) == drop;
    ZeroPrefix(s, drop / 2);
  }

  /** decode_into_slice behaves as documented exactly under SliceSound, a condition on the
      digits and the length of the slice. */
  lemma SliceSoundExactly(s: HexString, n: nat)
    ensures SliceDecode(s, n) == Documented(s, n) <==> SliceSound(s, n)
  {
    if |s| > 2 * n {
      var drop := |s| - 2 * n;
      DocumentedFits(s, n);
      ScanOutcome(s);
      if |s| == 2 {
        assert s[..drop] == s;
        assert s == "00" <==> AllZeroDigits(s);
      } else if drop <= Reach(s) <= Middle(s) {
        StopBeyond(s, n, Reach(s));
      }
    }
  }

  lemma SpellTwelve()
    ensures ValidHex("12") && BytesOf("12") == [0x12]
    ensures ValidHex("0512") && BytesOf("0512")[0] == 0x05
  {
    assert ValidHex("12") && ValidHex("0512");
    assert BytesOf("12")[0] == PairValue("12", 0) == 0x12;
    assert BytesOf("0512")[0] == PairValue("0512", 0) == 0x05;
  }

  /** A significant byte is dropped: 0512 leaves 12 in one byte. */
  lemma DroppedByteWitness()
    ensures ValidHex("0512") && SliceDecode("0512", 1) == Ok([0x12]) && Documented("0512", 1) == Err(BufferTooSmall)
  {
    SpellTwelve();
    assert Scan("0512", 0) == Scan("0512", 2) == Stop(2);
    assert "0512"[2..] == "12";
    assert RightAlign([0x12], 1) == [0x12];
  }

  /** The scan leaves the string: 0004 panics for one byte, which would hold its value. */
  lemma PanicWitness()
    ensures ValidHex("0004") && SliceDecode("0004", 1) == Panic && Documented("0004", 1) == Ok([0x04])
  {
    var s := "0004";
    assert ValidHex(s);
    assert Scan(s, 0) == Scan(s, 2) == OutOfRange;
    assert BytesOf(s) == [PairValue(s, 0), PairValue(s, 1)] == [0, 4];
    assert RightAlign([0, 4], 1) == [4];
  }

  /** A zero is refused by an empty slice. */
  lemma RefusedZeroWitness()
    ensures ValidHex("00") && SliceDecode("00", 0) == Err(BufferTooSmall) && Documented("00", 0) == Ok([])
  {
    assert ValidHex("00");
    assert Scan("00", 0) == Scan("00", 2) == Exhausted;
    assert BytesOf("00")[0] == PairValue("00", 0) == 0;
  }
}
