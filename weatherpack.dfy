/**
 * The eight-bit encoding of a weather report's collection time: five bits of
 * hour and three bits of minutes rounded to the nearest ten, each bit held in
 * its own Go `int`, most significant bit first.
 *
 * A Go `int` here is 64 bits wide. Unpack accepts any such values, so its
 * shifts and ors are modelled on their 64-bit two's-complement patterns
 * (`bv64` words), and `Signed` reads a pattern back as the integer Go sees.
 */
module WeatherPack {
  import opened Results
  import opened GoTime

  const WordModulus: int := 0x1_0000_0000_0000_0000

  type GoInt = x: int | -0x8000_0000_0000_0000 <= x < 0x8000_0000_0000_0000

  type Word = bv64

  /** The two's-complement pattern of a Go int. The patterns of 0 and 1 are
      written out, so that proofs about bits need no general conversion. */
  function WordOf(x: GoInt): Word {
    if x == 0 then 0 else if x == 1 then 1 else (x % WordModulus) as Word
  }

  /** The Go int a 64-bit two's-complement pattern stands for. */
  function Signed(w: Word): (v: int)
    ensures w < 0x8000_0000_0000_0000 ==> v == w as int
  {
    if w < 0x8000_0000_0000_0000 then w as int else w as int - WordModulus
  }

  /** int(math.Floor(float64(min) / 10.0 + 0.5)). For minutes 0..59 the float
      quotient is exact at the halves (n5 / 10 is n.5) and elsewhere is at
      least 0.1 away from them, so exact real arithmetic gives the same floor. */
  function RoundedTens(min: nat): int {
    ((min as real) / 10.0 + 0.5).Floor
  }

  /** Rounding to the nearest ten, halves up, in integers. */
  lemma RoundedTensIsNearest(min: nat)
    ensures RoundedTens(min) == (min + 5) / 10
  {
    var q, r := (min + 5) / 10, (min + 5) % 10;
    assert (min as real) / 10.0 + 0.5 == (q as real) + (r as real) / 10.0;
  }

  /** The hour and the tens of minutes Pack encodes, read on t's clock in its
      Location (zoneOffset seconds east of UTC at t): a rounded 6 becomes 0 and
      carries into the hour, and an hour of 24 becomes 0. */
  function PackedClock(t: Instant, zoneOffset: int): (hourTens: (int, int))
    ensures 0 <= hourTens.0 < 24 && 0 <= hourTens.1 < 6
  {
    RoundedClock(HourOf(InZone(t, zoneOffset)), MinuteOf(InZone(t, zoneOffset)))
  }

  function RoundedClock(hr: int, min: nat): (hourTens: (int, int))
    requires 0 <= hr < 24 && min < 60
    ensures 0 <= hourTens.0 < 24 && 0 <= hourTens.1 < 6
  {
    RoundedTensIsNearest(min);
    var rounded := RoundedTens(min);
    if rounded == 6 then (if hr + 1 == 24 then 0 else hr + 1, 0) else (hr, rounded)
  }

  /** The rounded clock is the minute of the day rounded to the nearest ten,
      halves up, modulo 24 hours. */
  lemma RoundedClockMinutes(hr: int, min: nat)
    requires 0 <= hr < 24 && min < 60
    ensures RoundedClock(hr, min).0 * 60 + RoundedClock(hr, min).1 * 10
         == (hr * 60 + min + 5) / 10 * 10 % (24 * 60)
  {
    var (h, tens) := RoundedClock(hr, min);
    RoundedTensIsNearest(min);
    var rounded, rest := (min + 5) / 10, (min + 5) % 10;
    assert min + 5 == rounded * 10 + rest;
    var total := hr * 60 + min + 5;
    assert total == (hr * 6 + rounded) * 10 + rest;
    DivModOf(hr * 6 + rounded, rest, 10);
    var r := total / 10 * 10;
    assert r == hr * 60 + rounded * 10;
    if rounded == 6 && hr == 23 {
      DivModOf(1, 0, 24 * 60);
    } else {
      assert r == h * 60 + tens * 10;
      DivModOf(0, r, 24 * 60);
    }
  }

  /** WeatherCollectionTime.Pack of a time whose Location is zoneOffset
      seconds east of UTC at t. Both numbers are non-negative, so
      (x >> k) & 1 is (x / 2^k) % 2. */
  function Pack(t: Instant, zoneOffset: int): (bits: seq<GoInt>)
    ensures |bits| == 8
    ensures forall i :: 0 <= i < 8 ==> bits[i] == 0 || bits[i] == 1
  {
    var (hr, tens) := PackedClock(t, zoneOffset);
    [(hr / 16) % 2, (hr / 8) % 2, (hr / 4) % 2, (hr / 2) % 2, hr % 2,
     (tens / 4) % 2, (tens / 2) % 2, tens % 2]
  }

  /** The numbers bits 0-4 and bits 5-7 spell as binary numerals, most
      significant bit first. */
  function HourField(bits: seq<int>): int
    requires |bits| == 8
  {
    16 * bits[0] + 8 * bits[1] + 4 * bits[2] + 2 * bits[3] + bits[4]
  }

  function TensField(bits: seq<int>): int
    requires |bits| == 8
  {
    4 * bits[5] + 2 * bits[6] + bits[7]
  }

  /** 08:04 UTC is 10:04 on a clock two hours east of UTC, and Pack encodes
      that clock's hour. */
  lemma PackReadsZoneClock()
    ensures PackedClock(8 * Hour + 4 * Minute, 2 * 3600) == (10, 0)
  {
    var w := InZone(8 * Hour + 4 * Minute, 2 * 3600);
    assert w == 10 * Hour + 4 * Minute;
    DivModOf(0, w, Day);
    DivModOf(10, 4 * Minute, Hour);
    DivModOf(0, 4 * Minute, Hour);
    DivModOf(4, 0, Minute);
    RoundedTensIsNearest(4);
  }

  /** Bits 0-4 of Pack are the hour and bits 5-7 the tens of minutes. */
  lemma PackLayout(t: Instant, zoneOffset: int)
    ensures HourField(Pack(t, zoneOffset)) == PackedClock(t, zoneOffset).0
    ensures TensField(Pack(t, zoneOffset)) == PackedClock(t, zoneOffset).1
  {
    var (hr, tens) := PackedClock(t, zoneOffset);
    BinaryDigits5(hr);
    BinaryDigits3(tens);
  }

  lemma BinaryDigits5(h: int)
    requires 0 <= h < 32
    ensures h == 16 * ((h / 16) % 2) + 8 * ((h / 8) % 2) + 4 * ((h / 4) % 2) + 2 * ((h / 2) % 2) + h % 2
  {
    BinaryDigits3(h / 4);
    assert h / 4 / 4 == h / 16 && h / 4 / 2 == h / 8;
  }

  lemma BinaryDigits3(m: int)
    requires 0 <= m < 8
    ensures m == 4 * ((m / 4) % 2) + 2 * ((m / 2) % 2) + m % 2
  {
  }

  datatype UnpackError = InvalidLength

  /** (*WeatherCollectionTime).Unpack: the value it stores in the receiver, or
      its error, in which case the receiver keeps its value. */
  function Unpack(data: seq<GoInt>): (r: Result<Instant, UnpackError>)
    ensures r.Err? <==> |data| != 8
  {
    if |data| != 8 then Err(InvalidLength)
    else Ok(DateOfDayZero(UnpackedHours(data), UnpackedMinutes(data)))
  }

  /** d0<<4 | d1<<3 | d2<<2 | d3<<1 | d4, on 64-bit ints. */
  function UnpackedHours(data: seq<GoInt>): int
    requires |data| == 8
  {
    Signed((WordOf(data[0]) << 4) | (WordOf(data[1]) << 3) | (WordOf(data[2]) << 2)
      | (WordOf(data[3]) << 1) | WordOf(data[4]))
  }

  /** (d5<<2 | d6<<1 | d7) * 10, on 64-bit ints. */
  function UnpackedMinutes(data: seq<GoInt>): int
    requires |data| == 8
  {
    Signed(((WordOf(data[5]) << 2) | (WordOf(data[6]) << 1) | WordOf(data[7])) * 10)
  }

  /** On 0/1 words the ors of shifted bits are the binary numerals. */
  lemma OrOfBits5(b0: Word, b1: Word, b2: Word, b3: Word, b4: Word)
    requires b0 <= 1 && b1 <= 1 && b2 <= 1 && b3 <= 1 && b4 <= 1
    ensures ((b0 << 4) | (b1 << 3) | (b2 << 2) | (b3 << 1) | b4) as int
         == 16 * (b0 as int) + 8 * (b1 as int) + 4 * (b2 as int) + 2 * (b3 as int) + b4 as int
  {
    var x := (b0 << 4) | (b1 << 3) | (b2 << 2) | (b3 << 1) | b4;
    assert x == b0 * 16 + b1 * 8 + b2 * 4 + b3 * 2 + b4;
  }

  lemma OrOfBits3(b0: Word, b1: Word, b2: Word)
    requires b0 <= 1 && b1 <= 1 && b2 <= 1
    ensures (((b0 << 2) | (b1 << 1) | b2) * 10) as int == 40 * (b0 as int) + 20 * (b1 as int) + 10 * (b2 as int)
  {
  }

  /** On eight 0/1 values Unpack reads bits 0-4 as the hour and bits 5-7 as
      tens of minutes. */
  lemma UnpackOfBits(data: seq<GoInt>)
    requires |data| == 8 && forall i :: 0 <= i < 8 ==> data[i] == 0 || data[i] == 1
    ensures Unpack(data) == Ok(DateOfDayZero(HourField(data), 10 * TensField(data)))
  {
    UnpackedHoursOfBits(data);
    UnpackedMinutesOfBits(data);
  }

  lemma UnpackedHoursOfBits(data: seq<GoInt>)
    requires |data| == 8 && forall i :: 0 <= i < 8 ==> data[i] == 0 || data[i] == 1
    ensures UnpackedHours(data) == HourField(data)
  {
    OrOfBits5(WordOf(data[0]), WordOf(data[1]), WordOf(data[2]), WordOf(data[3]), WordOf(data[4]));
  }

  lemma UnpackedMinutesOfBits(data: seq<GoInt>)
    requires |data| == 8 && forall i :: 0 <= i < 8 ==> data[i] == 0 || data[i] == 1
    ensures UnpackedMinutes(data) == 10 * TensField(data)
  {
    OrOfBits3(WordOf(data[5]), WordOf(data[6]), WordOf(data[7]));
  }

  /** Unpacking what Pack produced gives the clock Pack encoded, as a UTC time. */
  lemma UnpackPack(t: Instant, zoneOffset: int)
    ensures Unpack(Pack(t, zoneOffset)).Ok?
    ensures HourOf(Unpack(Pack(t, zoneOffset)).value) == PackedClock(t, zoneOffset).0
    ensures MinuteOf(Unpack(Pack(t, zoneOffset)).value) == 10 * PackedClock(t, zoneOffset).1
  {
    var (hr, tens) := PackedClock(t, zoneOffset);
    PackLayout(t, zoneOffset);
    UnpackOfBits(Pack(t, zoneOffset));
    DateOfDayZeroClock(hr, 10 * tens);
  }

  /** Unpacking what Pack produced gives t's time of day in its Location,
      rounded to the nearest ten minutes (halves up), modulo 24 hours. */
  lemma PackUnpackRoundTrip(t: Instant, zoneOffset: int)
    ensures Unpack(Pack(t, zoneOffset)).Ok?
    ensures var u, w := Unpack(Pack(t, zoneOffset)).value, InZone(t, zoneOffset);
      HourOf(u) * 60 + MinuteOf(u) == (HourOf(w) * 60 + MinuteOf(w) + 5) / 10 * 10 % (24 * 60)
  {
    UnpackPack(t, zoneOffset);
    var w := InZone(t, zoneOffset);
    var h0, m0 := HourOf(w), MinuteOf(w);
    assert PackedClock(t, zoneOffset) == RoundedClock(h0, m0);
    RoundedClockMinutes(h0, m0);
  }
}
