/** The on-disk form of a queued message: the file name and the binary record, and how `replay`
    reads them back, with its 16-bit offset arithmetic. */
module EdgeRecords {
  import opened Options
  import opened Strings

  type Byte = b: int | 0 <= b < 256
  type Bytes = seq<Byte>

  const U16 := 0x1_0000
  const U32 := 0x1_0000_0000
  const U64 := 0x1_0000_0000_0000_0000

  /** A queued message. Its arrival time is not on disk. */
  datatype Item = Item(num: nat, subject: Bytes, data: Bytes)

  // ---------- the record ----------

  function Put16(n: nat): (b: Bytes)
    ensures |b| == 2
  {
    [n / 256 % 256, n % 256]
  }

  function Put32(n: nat): (b: Bytes)
    ensures |b| == 4
  {
    Put16(n / U16) + Put16(n % U16)
  }

  function Get16(b: Bytes): nat
    requires |b| == 2
  {
    var high: int, low: int := b[0], b[1];
    high * 256 + low
  }

  function Get32(b: Bytes): nat
    requires |b| == 4
  {
    Get16(b[..2]) * U16 + Get16(b[2..])
  }

  /** The lengths are cast to 16 and 32 bits. */
  function Encode(subject: Bytes, data: Bytes): Bytes {
    Put16(|subject| % U16) + subject + Put32(|data| % U32) + data
  }

  datatype Parsed = Skipped | Panicked | Record(subject: Bytes, data: Bytes)

  /** What reading a whole file leaves in memory: a buffer of at least 512 bytes, and one more than the
      file has, of which the slice covers the file's bytes and the rest is zero. */
  function Buffered(body: Bytes): (buffer: Bytes)
    ensures |buffer| > |body| && buffer[..|body|] == body
  {
    var spare := if |body| + 1 < 512 then 512 - |body| else 1;
    body + seq(spare, _ => 0)
  }

  /** A slice expression: its bounds may go beyond the slice's length, up to its capacity; bounds out of
      order or beyond the capacity panic. */
  function Slice(buffer: Bytes, lo: nat, hi: nat): Option<Bytes> {
    if lo <= hi <= |buffer| then Some(buffer[lo..hi]) else None
  }

  /** The parser of one file. Every offset is a `uint16`, so it wraps. */
  function Parse(body: Bytes): Parsed {
    if |body| < 6 then Skipped
    else
      var sl := Get16(body[..2]);
      if (2 + sl + 4) % U16 > |body| then Skipped
      else
        var buffer := Buffered(body);
        var subject := Slice(buffer, 2, (2 + sl) % U16);
        var length := Slice(buffer, (2 + sl) % U16, (6 + sl) % U16);
        if subject.None? || length.None? || |length.value| != 4 then Panicked
        else
          var dl := Get32(length.value);
          var data := Slice(buffer, (6 + sl) % U16, (6 + sl + dl % U16) % U16);
          if data.None? then Panicked else Record(subject.value, data.value)
  }

  predicate Fits(subject: Bytes, data: Bytes) {
    6 + |subject| + |data| <= 65535
  }

  lemma GetPut16(n: nat)
    requires n < U16
    ensures Get16(Put16(n)) == n
  {
  }

  lemma GetPut32(n: nat)
    requires n < U32
    ensures Get32(Put32(n)) == n
  {
    GetPut16(n / U16);
    GetPut16(n % U16);
    assert Put32(n)[..2] == Put16(n / U16) && Put32(n)[2..] == Put16(n % U16);
  }

  /** The two low bytes that the parser takes for the data length of a written record. Beyond a subject of
      65535 bytes they are bytes of the subject. */
  function ReadLength(subject: Bytes, data: Bytes): nat
    requires |subject| % U16 < U16 - 6
  {
    var sl := |subject| % U16;
    if |subject| < U16 then |data| % U16 else Get16(subject[sl + 2..sl + 4])
  }

  /** Reading back a written record panics: an offset wraps around. */
  predicate Panics(subject: Bytes, data: Bytes) {
    var sl := |subject| % U16;
    sl >= U16 - 6 || 6 + sl + ReadLength(subject, data) > 65535
  }

  /** The record read back when no offset wraps: subject and data cut at the lengths read. Beyond a
      subject of 65535 bytes the data is a part of the subject. */
  function CutRecord(subject: Bytes, data: Bytes): Parsed
    requires !Panics(subject, data)
  {
    var sl, n := |subject| % U16, ReadLength(subject, data);
    if |subject| < U16 then Record(subject, data[..n]) else Record(subject[..sl], subject[4 + sl..4 + sl + n])
  }

  /** The parser on a body whose subject length does not make an offset wrap. */
  lemma ParseBody(body: Bytes, sl: nat, dl: nat)
    requires sl < U16 - 6 && 6 + sl <= |body| && Get16(body[..2]) == sl && Get32(body[2 + sl..6 + sl]) == dl
    ensures var hi := 6 + sl + dl % U16;
            && (hi > 65535 ==> Parse(body) == Panicked)
            && (hi <= 65535 && hi <= |body| ==> Parse(body) == Record(body[2..2 + sl], body[6 + sl..hi]))
  {
    hide Get16, Get32, Buffered;
    var buffer, hi := Buffered(body), 6 + sl + dl % U16;
    SliceOfFront(buffer, body, 2, 2 + sl);
    SliceOfFront(buffer, body, 2 + sl, 6 + sl);
    NoWrap(2 + sl);
    NoWrap(6 + sl);
    assert Slice(buffer, 2, 2 + sl) == Some(body[2..2 + sl]);
    assert Slice(buffer, 2 + sl, 6 + sl) == Some(body[2 + sl..6 + sl]);
    if hi > 65535 {
      assert hi % U16 < 6 + sl;
    } else if hi <= |body| {
      NoWrap(hi);
      SliceOfFront(buffer, body, 6 + sl, hi);
    }
    hide Slice;
  }

  lemma NoWrap(n: nat)
    ensures n < U16 ==> n % U16 == n
  {
  }

  lemma SliceOfFront(buffer: Bytes, body: Bytes, lo: nat, hi: nat)
    requires |buffer| >= |body| && buffer[..|body|] == body && lo <= hi <= |body|
    ensures buffer[lo..hi] == body[lo..hi]
  {
    assert buffer[..|body|][lo..hi] == buffer[lo..hi];
  }

  lemma LengthField(subject: Bytes, data: Bytes)
    ensures var body := Encode(subject, data);
            && |body| == 6 + |subject| + |data| && Get16(body[..2]) == |subject| % U16
            && body[2..2 + |subject|] == subject
  {
    assert Encode(subject, data)[..2] == Put16(|subject| % U16);
    GetPut16(|subject| % U16);
  }

  /** The bytes on disk: the length of the subject with its high byte first, the subject, the length of the
      data from its highest byte to its lowest, the data. */
  lemma WireForm(subject: Bytes, data: Bytes)
    requires |subject| < U16 && |data| < U32
    ensures var body, s := Encode(subject, data), |subject|;
      && |body| == 6 + s + |data|
      && (body[0] as int) * 256 + body[1] == s
      && body[2..2 + s] == subject
      && (body[2 + s] as int) * 0x100_0000 + (body[3 + s] as int) * U16 + (body[4 + s] as int) * 256 + body[5 + s]
         == |data|
      && body[6 + s..] == data
  {
    hide *;
    var body, s := Encode(subject, data), |subject|;
    LengthField(subject, data);
    Layout(subject, data);
    NoWrap(s);
    LongNoWrap(|data|);
    TwoBytes(body);
    FourBytes(body, 2 + s);
    assert body[6 + s..6 + s + |data|] == data[..|data|];
    assert 6 + s + |data| == |body|;
  }

  lemma LongNoWrap(n: nat)
    ensures n < U32 ==> n % U32 == n
  {
  }

  lemma TwoBytes(body: Bytes)
    requires |body| >= 2
    ensures Get16(body[..2]) == (body[0] as int) * 256 + body[1]
  {
  }

  lemma FourBytes(body: Bytes, i: nat)
    requires i + 4 <= |body|
    ensures Get32(body[i..i + 4]) == (body[i] as int) * 0x100_0000 + (body[i + 1] as int) * U16
                                     + (body[i + 2] as int) * 256 + body[i + 3]
  {
    hide Get16;
    var b := body[i..i + 4];
    assert b == [body[i], body[i + 1], body[i + 2], body[i + 3]];
    assert b[..2] == [body[i], body[i + 1]] && b[2..] == [body[i + 2], body[i + 3]];
    PairOfBytes(body[i], body[i + 1]);
    PairOfBytes(body[i + 2], body[i + 3]);
  }

  lemma PairOfBytes(high: Byte, low: Byte)
    ensures Get16([high, low]) == (high as int) * 256 + low
  {
  }

  /** Where the parts of a record lie when the subject is short enough for its length field. */
  lemma Layout(subject: Bytes, data: Bytes)
    requires |subject| < U16
    ensures var body, s := Encode(subject, data), |subject|;
            Get32(body[2 + s..6 + s]) == |data| % U32
            && forall n :: 0 <= n <= |data| ==> body[6 + s..6 + s + n] == data[..n]
  {
    var body, s := Encode(subject, data), |subject|;
    GetPut32(|data| % U32);
    assert body[2 + s..6 + s] == Put32(|data| % U32);
    assert body[6 + s..] == data;
    forall n | 0 <= n <= |data|
      ensures body[6 + s..6 + s + n] == data[..n]
    {
      assert body[6 + s..][..n] == body[6 + s..6 + s + n];
    }
  }

  lemma ShortSubject(subject: Bytes, data: Bytes)
    requires |subject| < U16 - 6
    ensures Parse(Encode(subject, data))
            == if Panics(subject, data) then Panicked else CutRecord(subject, data)
  {
    hide Encode, Parse, Get16, Get32, Panics, CutRecord, ReadLength;
    var body, s, d := Encode(subject, data), |subject|, |data|;
    LengthField(subject, data);
    Layout(subject, data);
    NoWrap(s);
    LowerLength(d);
    ParseBody(body, s, d % U32);
    ShortCut(subject, data);
    assert body[6 + s..6 + s + d % U16] == data[..d % U16];
  }

  lemma LowerLength(d: nat)
    ensures d % U32 % U16 == d % U16 <= d
  {
  }

  /** What the parts of the claim say for a short subject. */
  lemma ShortCut(subject: Bytes, data: Bytes)
    requires |subject| < U16 - 6
    ensures Panics(subject, data) <==> 6 + |subject| + |data| % U16 > 65535
    ensures !Panics(subject, data) ==> CutRecord(subject, data) == Record(subject, data[..|data| % U16])
  {
  }

  /** The data length is read from inside the subject. */
  lemma LongSubject(subject: Bytes, data: Bytes)
    requires |subject| >= U16 && |subject| % U16 < U16 - 6
    ensures Parse(Encode(subject, data))
            == if Panics(subject, data) then Panicked else CutRecord(subject, data)
  {
    hide Encode, Parse, Get16;
    var body, sl := Encode(subject, data), |subject| % U16;
    LengthField(subject, data);
    var length := body[2 + sl..6 + sl];
    SubjectPart(body, subject, sl, sl + 4);
    assert length[2..] == subject[sl + 2..sl + 4];
    ParseBody(body, sl, Get32(length));
    LowHalf(length);
    if !Panics(subject, data) {
      SubjectPart(body, subject, 0, sl);
      SubjectPart(body, subject, 4 + sl, 4 + sl + ReadLength(subject, data));
    }
  }

  lemma SliceOfSlice(b: Bytes, m: nat, n: nat, lo: nat, hi: nat)
    requires m <= n <= |b| && lo <= hi <= n - m
    ensures b[m..n][lo..hi] == b[m + lo..m + hi]
  {
    var x, y := b[m..n][lo..hi], b[m + lo..m + hi];
    assert forall i :: 0 <= i < hi - lo ==> x[i] == b[m..n][lo + i] == b[m + lo + i] == y[i];
  }

  lemma SubjectPart(body: Bytes, subject: Bytes, lo: nat, hi: nat)
    requires lo <= hi <= |subject| && 2 + |subject| <= |body| && body[2..2 + |subject|] == subject
    ensures body[2 + lo..2 + hi] == subject[lo..hi]
  {
    SliceOfSlice(body, 2, 2 + |subject|, lo, hi);
  }

  lemma LowHalf(b: Bytes)
    requires |b| == 4
    ensures Get32(b) % U16 == Get16(b[2..])
  {
    hide Get16;
    assert Get16(b[2..]) < U16 by {
      LowHalfBound(b[2..]);
    }
  }

  lemma LowHalfBound(b: Bytes)
    requires |b| == 2
    ensures Get16(b) < U16
  {
  }

  /** With a subject length within 6 of the wrap-around some bounds are out of order. */
  lemma WrappedSubject(subject: Bytes, data: Bytes)
    requires |subject| % U16 >= U16 - 6
    ensures Parse(Encode(subject, data)) == Panicked
  {
    hide Encode, Get16, Get32, Buffered;
    var body, sl := Encode(subject, data), |subject| % U16;
    LengthField(subject, data);
    assert (2 + sl) % U16 < 2 || (6 + sl) % U16 < (2 + sl) % U16;
  }

  /** What a restart makes of a written record: a panic exactly when an offset wraps, and otherwise the
      cut record. It is never skipped. */
  lemma ParseWritten(subject: Bytes, data: Bytes)
    ensures Parse(Encode(subject, data)) == if Panics(subject, data) then Panicked else CutRecord(subject, data)
  {
    hide Parse, Encode;
    if |subject| % U16 >= U16 - 6 {
      WrappedSubject(subject, data);
    } else if |subject| < U16 {
      ShortSubject(subject, data);
    } else {
      LongSubject(subject, data);
    }
  }

  /** Exactly the records whose whole length fits the 16-bit offsets survive a restart. */
  lemma RoundTripIffFits(subject: Bytes, data: Bytes)
    ensures Parse(Encode(subject, data)) == Record(subject, data) <==> Fits(subject, data)
  {
    hide Parse, Encode;
    ParseWritten(subject, data);
    if |subject| < U16 && |data| < U16 {
      assert subject[..|subject|] == subject && data[..|data|] == data;
    }
  }

  // ---------- the file name ----------

  function Pow10(k: nat): nat {
    if k == 0 then 1 else 10 * Pow10(k - 1)
  }

  /** The `k` last decimal digits of `n`. */
  function Digits(k: nat, n: nat): (s: string)
    ensures |s| == k
  {
    if k == 0 then "" else Digits(k - 1, n / 10) + [Digit(n % 10)]
  }

  function FileName(num: nat): string {
    Digits(20, num) + ".itm"
  }

  function ParseName(name: string): Option<nat> {
    if |name| != 24 || name[20..] != ".itm" then None
    else
      var n := Number(name[..20]);
      if n.Some? && n.value < U64 then n else None
  }

  lemma {:induction false} NumberOfDigits(k: nat, n: nat)
    requires n < Pow10(k)
    ensures Number(Digits(k, n)) == Some(n)
  {
    if k > 0 {
      NumberOfDigits(k - 1, n / 10);
      assert Digits(k, n)[..k - 1] == Digits(k - 1, n / 10);
    }
  }

  lemma TwentyDigits()
    ensures U64 < Pow10(20)
  {
    assert Pow10(2) == 100;
    assert Pow10(4) == 10_000;
    assert Pow10(6) == 1_000_000;
    assert Pow10(8) == 100_000_000;
    assert Pow10(10) == 10_000_000_000;
    assert Pow10(12) == 1_000_000_000_000;
    assert Pow10(14) == 100_000_000_000_000;
    assert Pow10(16) == 10_000_000_000_000_000;
    assert Pow10(18) == 1_000_000_000_000_000_000;
  }

  lemma NameRoundTrip(num: nat)
    requires num < U64
    ensures ParseName(FileName(num)) == Some(num)
  {
    TwentyDigits();
    NumberOfDigits(20, num);
    assert FileName(num)[..20] == Digits(20, num);
  }

  lemma {:induction false} DigitsOfNumber(s: string, n: nat)
    requires Number(s) == Some(n)
    ensures Digits(|s|, n) == s
  {
    if s != "" {
      var k := |s| - 1;
      var front, last := Number(s[..k]).value, DigitValue(s[k]).value;
      DigitsOfNumber(s[..k], front);
      assert n / 10 == front && n % 10 == last && Digit(last) == s[k];
      assert s == s[..k] + [s[k]];
    }
  }

  /** Names that are read at all are the names of their numbers. */
  lemma NameOfNumber(name: string)
    requires ParseName(name).Some?
    ensures ParseName(name).value < U64 && FileName(ParseName(name).value) == name
  {
    hide Number;
    DigitsOfNumber(name[..20], ParseName(name).value);
    assert name == name[..20] + name[20..];
  }

  lemma {:induction false} DigitsOrder(k: nat, a: nat, b: nat)
    requires a < Pow10(k) && b < Pow10(k)
    ensures Less(Digits(k, a), Digits(k, b)) <==> a < b
  {
    if k > 0 {
      DigitsOrder(k - 1, a / 10, b / 10);
      LessByPrefix(Digits(k - 1, a / 10), Digits(k - 1, b / 10), Digit(a % 10), Digit(b % 10));
      if Digits(k - 1, a / 10) == Digits(k - 1, b / 10) {
        NumberOfDigits(k - 1, a / 10);
        NumberOfDigits(k - 1, b / 10);
      }
    }
  }

  lemma {:induction false} LessWithSuffix(a: string, b: string, t: string)
    requires |a| == |b|
    ensures Less(a + t, b + t) <==> Less(a, b)
  {
    if a == "" {
      assert a + t == t && b + t == t;
      LessIrreflexive(t);
    } else {
      assert (a + t)[1..] == a[1..] + t && (b + t)[1..] == b[1..] + t;
      LessWithSuffix(a[1..], b[1..], t);
    }
  }

  /** Sorting the names sorts the messages: lexicographic order of names is numeric order. */
  lemma NameOrder(a: nat, b: nat)
    requires a < U64 && b < U64
    ensures Less(FileName(a), FileName(b)) <==> a < b
    ensures FileName(a) == FileName(b) <==> a == b
  {
    TwentyDigits();
    DigitsOrder(20, a, b);
    LessWithSuffix(Digits(20, a), Digits(20, b), ".itm");
    NameRoundTrip(a);
    NameRoundTrip(b);
  }
}
