/** Address and configuration utilities of the xiaomi crate: rendering a
    48-bit Bluetooth device address as colon-separated upper-case hex,
    parsing an address written either as one hex number or as six
    colon-separated hex bytes, and looking up a configured device by name. */
module Lib {
  import opened Base

  // ---------------------------------------------------------------------
  // Hex digits
  // ---------------------------------------------------------------------

  predicate IsHexDigit(c: char) {
    '0' <= c <= '9' || 'a' <= c <= 'f' || 'A' <= c <= 'F'
  }

  predicate AllHexDigits(s: string) {
    forall i | 0 <= i < |s| :: IsHexDigit(s[i])
  }

  function DigitValue(c: char): (d: nat)
    requires IsHexDigit(c)
    ensures d < 16
  {
    if '0' <= c <= '9' then c as int - '0' as int
    else if 'a' <= c <= 'f' then c as int - 'a' as int + 10
    else c as int - 'A' as int + 10
  }

  /** The value of a string of hex digits, most significant digit first. */
  function HexValue(s: string): nat
    requires AllHexDigits(s)
  {
    if s == [] then 0 else HexValue(s[..|s| - 1]) * 16 + DigitValue(s[|s| - 1])
  }

  /** The upper-case digit for a value below 16, as the `X` format uses. */
  function UpperHexDigit(d: nat): (c: char)
    requires d < 16
    ensures IsHexDigit(c) && DigitValue(c) == d
    ensures !('a' <= c <= 'z')
  {
    if d < 10 then ('0' as int + d) as char else ('A' as int + d - 10) as char
  }

  /** `{:02X}` applied to one byte: exactly two upper-case hex digits. */
  function UpperHexByte(b: u8): (s: string)
    ensures |s| == 2 && AllHexDigits(s) && HexValue(s) == b
    ensures forall i | 0 <= i < |s| :: !('a' <= s[i] <= 'z')
  {
    var s := [UpperHexDigit(b / 16), UpperHexDigit(b % 16)];
    HexValueOfTwo(s);
    s
  }

  lemma HexValueOfTwo(s: string)
    requires |s| == 2 && AllHexDigits(s)
    ensures HexValue(s) == DigitValue(s[0]) * 16 + DigitValue(s[1])
  {
    assert s[..1][..0] == [];
    assert HexValue(s[..1]) == DigitValue(s[0]);
  }

  /** `from_str_radix(s, 16)` into an unsigned integer type whose values lie
      below `bound`: an optional leading '+', then at least one hex digit of
      either case; any other character, an empty digit string or a value that
      does not fit is an error. */
  function FromStrRadix16(s: string, bound: nat): (r: Option<nat>)
    ensures r.Some? ==> r.value < bound
  {
    var digits := if |s| > 0 && s[0] == '+' then s[1..] else s;
    if digits != [] && AllHexDigits(digits) && HexValue(digits) < bound then Some(HexValue(digits))
    else None
  }

  /** Without a leading '+', the string parses exactly when it is a
      non-empty run of hex digits whose value fits. */
  lemma FromStrRadix16Plain(s: string, bound: nat)
    requires s != [] && s[0] != '+'
    ensures FromStrRadix16(s, bound).Some? <==> AllHexDigits(s) && HexValue(s) < bound
    ensures AllHexDigits(s) && HexValue(s) < bound ==> FromStrRadix16(s, bound) == Some(HexValue(s))
  {
  }

  /** A single leading '+' is accepted and ignored; a second one is not. */
  lemma FromStrRadix16Plus(d: string, bound: nat)
    ensures d == [] || d[0] != '+' ==> FromStrRadix16(['+'] + d, bound) == FromStrRadix16(d, bound)
    ensures d != [] && d[0] == '+' ==> FromStrRadix16(['+'] + d, bound).None?
  {
    assert (['+'] + d)[1..] == d;
    if d != [] && d[0] == '+' {
      assert !IsHexDigit(d[0]);
    }
  }

  /** Neither the empty string nor a lone '+' is a number. */
  lemma FromStrRadix16Empty(bound: nat)
    ensures FromStrRadix16("", bound).None?
    ensures FromStrRadix16("+", bound).None?
  {
    assert "+"[1..] == "";
  }

  // ---------------------------------------------------------------------
  // format_bluetooth_address
  // ---------------------------------------------------------------------

  /** The six address bytes, most significant first: `(value >> 40) as u8`
      down to `value as u8` (`as u8` keeps the low eight bits). The top 16
      bits of the u64 are dropped. */
  function AddressBytes(value: u64): (bs: seq<u8>)
    ensures |bs| == 6
  {
    [Shr8(value, 5) % 0x100, Shr8(value, 4) % 0x100, Shr8(value, 3) % 0x100,
     Shr8(value, 2) % 0x100, Shr8(value, 1) % 0x100, value % 0x100]
  }

  /** `value >> (8 * n)`, one byte at a time. */
  function Shr8(value: nat, n: nat): nat
  {
    if n == 0 then value else Shr8(value, n - 1) / 0x100
  }

  /** Renders an address as `AA:BB:CC:DD:EE:FF`, the six address bytes
      in upper-case hex joined by colons (see `FormatLayout`). */
  function FormatBluetoothAddress(value: u64): (s: string)
    ensures |s| == 17
  {
    var h := HexPieces(value);
    JoinLayout(h, ':');
    Join(h, ':')
  }

  /** The six two-digit renderings `{:02X}` of the address bytes. */
  function HexPieces(value: u64): (h: seq<string>)
    ensures |h| == 6
    ensures forall k | 0 <= k < 6 :: h[k] == UpperHexByte(AddressBytes(value)[k])
  {
    var b := AddressBytes(value);
    seq(6, k requires 0 <= k < 6 => UpperHexByte(b[k]))
  }

  /** The rendered address holds byte k of the address (most significant
      first) as two upper-case hex digits at positions 3k and 3k+1, with a
      colon after each of the first five bytes. */
  lemma FormatLayout(value: u64)
    ensures var s := FormatBluetoothAddress(value);
      && |s| == 17
      && (forall k | 0 <= k < 5 :: s[3 * k + 2] == ':')
      && (forall k | 0 <= k < 6 ::
            AllHexDigits(s[3 * k..3 * k + 2]) && HexValue(s[3 * k..3 * k + 2]) == AddressBytes(value)[k])
      && (forall i | 0 <= i < |s| :: !('a' <= s[i] <= 'z'))
  {
    var h := HexPieces(value);
    JoinLayout(h, ':');
    var s := Join(h, ':');
    assert s == FormatBluetoothAddress(value);
    forall k | 0 <= k < 6
      ensures AllHexDigits(s[3 * k..3 * k + 2]) && HexValue(s[3 * k..3 * k + 2]) == AddressBytes(value)[k]
    {
      assert s[3 * k..3 * k + 2] == UpperHexByte(AddressBytes(value)[k]);
    }
    forall i | 0 <= i < |s| ensures !('a' <= s[i] <= 'z') {
      var k := i / 3;
      if i % 3 == 2 {
        assert i == 3 * k + 2 && k < 5;
      } else {
        assert 3 * k <= i < 3 * k + 2 && k < 6;
        assert s[3 * k..3 * k + 2] == h[k];
        assert s[i] == h[k][i - 3 * k];
      }
    }
  }

  /** Bits 48 and above never reach the rendered address. */
  lemma FormatIgnoresHighBits(value: u64)
    ensures FormatBluetoothAddress(value) == FormatBluetoothAddress(value % U48_BOUND)
  {
    var low: u64 := value % U48_BOUND;
    AddressBytesFold(value);
    AddressBytesFold(low);
    FoldBytesInjective(AddressBytes(value), AddressBytes(low));
    assert HexPieces(value) == HexPieces(low);
  }

  // ---------------------------------------------------------------------
  // decode_bluetooth_adddress
  // ---------------------------------------------------------------------

  /** `str::split(sep)`: the pieces between separators, empty ones included;
      a string without the separator is a single piece. */
  function Split(s: string, sep: char): (pieces: seq<string>)
    ensures |pieces| >= 1
    ensures forall i | 0 <= i < |pieces| :: sep !in pieces[i]
  {
    if s == [] then [[]]
    else
      var rest := Split(s[1..], sep);
      if s[0] == sep then [[]] + rest else [[s[0]] + rest[0]] + rest[1..]
  }

  /** Joining pieces back with the separator; the inverse of `Split`. */
  function Join(pieces: seq<string>, sep: char): string
    requires |pieces| >= 1
  {
    if |pieces| == 1 then pieces[0] else pieces[0] + [sep] + Join(pieces[1..], sep)
  }

  lemma {:induction false} SplitThenJoin(s: string, sep: char)
    ensures Join(Split(s, sep), sep) == s
  {
    if s != [] {
      SplitThenJoin(s[1..], sep);
      var rest := Split(s[1..], sep);
      if s[0] != sep && |rest| > 1 {
        assert Join(rest, sep) == rest[0] + [sep] + Join(rest[1..], sep);
      }
      assert [s[0]] + s[1..] == s;
    }
  }

  /** A piece followed by the separator splits off as the first piece. */
  lemma {:induction false} SplitAtSeparator(x: string, sep: char, rest: string)
    requires sep !in x
    ensures Split(x + [sep] + rest, sep) == [x] + Split(rest, sep)
  {
    if x == [] {
      assert x + [sep] + rest == [sep] + rest;
    } else {
      SplitAtSeparator(x[1..], sep, rest);
      assert (x + [sep] + rest)[1..] == x[1..] + [sep] + rest;
      assert [x[0]] + x[1..] == x;
    }
  }

  lemma {:induction false} SplitWithoutSeparator(x: string, sep: char)
    requires sep !in x
    ensures Split(x, sep) == [x]
  {
    if x != [] {
      SplitWithoutSeparator(x[1..], sep);
      assert [x[0]] + x[1..] == x;
    }
  }

  /** Pieces free of the separator are recovered by splitting their join. */
  lemma {:induction false} JoinThenSplit(pieces: seq<string>, sep: char)
    requires |pieces| >= 1
    requires forall i | 0 <= i < |pieces| :: sep !in pieces[i]
    ensures Split(Join(pieces, sep), sep) == pieces
  {
    if |pieces| == 1 {
      SplitWithoutSeparator(pieces[0], sep);
    } else {
      JoinThenSplit(pieces[1..], sep);
      SplitAtSeparator(pieces[0], sep, Join(pieces[1..], sep));
      assert [pieces[0]] + pieces[1..] == pieces;
    }
  }

  /** Joining two-character pieces puts piece k at positions 3k and 3k+1
      and the separator at 3k+2. */
  lemma {:induction false} JoinLayout(pieces: seq<string>, sep: char)
    requires |pieces| >= 1
    requires forall i | 0 <= i < |pieces| :: |pieces[i]| == 2
    ensures |Join(pieces, sep)| == 3 * |pieces| - 1
    ensures forall k | 0 <= k < |pieces| :: Join(pieces, sep)[3 * k..3 * k + 2] == pieces[k]
    ensures forall k | 0 <= k < |pieces| - 1 :: Join(pieces, sep)[3 * k + 2] == sep
  {
    if |pieces| > 1 {
      JoinLayout(pieces[1..], sep);
      var s := Join(pieces, sep);
      var t := Join(pieces[1..], sep);
      assert s == pieces[0] + [sep] + t;
      forall k | 1 <= k < |pieces|
        ensures s[3 * k..3 * k + 2] == pieces[k]
      {
        assert s[3 * k..3 * k + 2] == t[3 * (k - 1)..3 * (k - 1) + 2];
      }
      forall k | 1 <= k < |pieces| - 1
        ensures s[3 * k + 2] == sep
      {
        assert s[3 * k + 2] == t[3 * (k - 1) + 2];
      }
    }
  }

  /** Big-endian accumulation `acc << 8 | v` over the parsed byte values. */
  function FoldBytes(bs: seq<u8>): nat
  {
    if bs == [] then 0 else FoldBytes(bs[..|bs| - 1]) * 0x100 + bs[|bs| - 1]
  }

  function Pow256(n: nat): (p: nat)
    ensures p >= 1
  {
    if n == 0 then 1 else 0x100 * Pow256(n - 1)
  }

  lemma {:induction false} FoldBytesBound(bs: seq<u8>)
    ensures FoldBytes(bs) < Pow256(|bs|)
  {
    if bs != [] {
      FoldBytesBound(bs[..|bs| - 1]);
    }
  }

  /** Equally long byte strings with the same big-endian value are equal. */
  lemma {:induction false} FoldBytesInjective(xs: seq<u8>, ys: seq<u8>)
    requires |xs| == |ys|
    requires FoldBytes(xs) == FoldBytes(ys)
    ensures xs == ys
  {
    if xs != [] {
      var n := |xs| - 1;
      assert FoldBytes(xs[..n]) == FoldBytes(ys[..n]) && xs[n] == ys[n];
      FoldBytesInjective(xs[..n], ys[..n]);
      assert xs == xs[..n] + [xs[n]] && ys == ys[..n] + [ys[n]];
    }
  }

  /** Every piece parsed as a hex u8, in order; `None` as soon as one fails. */
  function ParsePieces(pieces: seq<string>): (r: Option<seq<u8>>)
    ensures r.Some? <==> (forall i | 0 <= i < |pieces| :: FromStrRadix16(pieces[i], U8_BOUND).Some?)
    ensures r.Some? ==>
      (|r.value| == |pieces| &&
       forall i | 0 <= i < |pieces| :: FromStrRadix16(pieces[i], U8_BOUND) == Some(r.value[i]))
  {
    if pieces == [] then Some([])
    else
      var init := pieces[..|pieces| - 1];
      assert forall i | 0 <= i < |init| :: init[i] == pieces[i];
      match ParsePieces(init)
      case None => None
      case Some(bs) =>
        match FromStrRadix16(pieces[|pieces| - 1], U8_BOUND)
        case None => None
        case Some(v) => Some(bs + [v])
  }

  /** What `decode_bluetooth_adddress` returns for a string. */
  function DecodeAddress(value: string): (r: Result<u64, string>)
    ensures FromStrRadix16(value, U64_BOUND).Some? ==> r == Ok(FromStrRadix16(value, U64_BOUND).value)
    ensures FromStrRadix16(value, U64_BOUND).None? && |Split(value, ':')| != 6 ==> r.Err?
    ensures FromStrRadix16(value, U64_BOUND).None? && |Split(value, ':')| == 6 ==>
      (r.Ok? <==> ParsePieces(Split(value, ':')).Some?)
    ensures FromStrRadix16(value, U64_BOUND).None? && r.Ok? ==> r.value < U48_BOUND
  {
    match FromStrRadix16(value, U64_BOUND)
    case Some(v) => Ok(v)
    case None =>
      var pieces := Split(value, ':');
      if |pieces| != 6 then Err("given address is not 6 byte form")
      else match ParsePieces(pieces)
        case None => Err("parsing error.")
        case Some(bs) =>
          FoldBytesBound(bs);
          assert Pow256(6) == U48_BOUND;
          Ok(FoldBytes(bs))
  }

  /** Parses `value` as one hex number, or else as six colon-separated hex
      bytes accumulated big-endian, stopping at the first piece that is not a
      hex byte. */
  method DecodeBluetoothAddress(value: string) returns (r: Result<u64, string>)
    ensures r == DecodeAddress(value)
  {
    var whole := FromStrRadix16(value, U64_BOUND);
    if whole.Some? {
      return Ok(whole.value);
    }
    var bytes := Split(value, ':');
    if |bytes| != 6 {
      DecodeAddressNotSix(value);
      return Err("given address is not 6 byte form");
    }
    var converted := ConvertBytes(bytes);
    if converted.None? {
      DecodeAddressBadPiece(value);
      return Err("parsing error.");
    }
    DecodeAddressSix(value);
    return Ok(converted.value);
  }

  /** The loop of `decode_bluetooth_adddress`: `converted = (converted << 8)
      | v` for each piece parsed as a hex byte `v`, giving up at the first
      piece that does not parse. */
  method ConvertBytes(bytes: seq<string>) returns (converted: Option<u64>)
    requires |bytes| == 6
    ensures converted.Some? <==> ParsePieces(bytes).Some?
    ensures converted.Some? ==> converted.value == FoldBytes(ParsePieces(bytes).value)
  {
    var acc: u64 := 0;
    ghost var parsed: seq<u8> := [];
    for i := 0 to 6
      invariant ParsePieces(bytes[..i]) == Some(parsed)
      invariant acc == FoldBytes(parsed)
    {
      var piece, next := ParseStep(bytes, i, acc, parsed);
      if piece.None? {
        return None;
      }
      acc := next;
      parsed := parsed + [piece.value];
    }
    assert bytes[..6] == bytes;
    return Some(acc);
  }

  /** One pass of the `convert_bytes` loop body: parse the piece at `i`
      and shift it into the accumulator, or report that parsing stops. */
  method ParseStep(bytes: seq<string>, i: nat, acc: u64, ghost parsed: seq<u8>)
    returns (piece: Option<u8>, next: u64)
    requires i < |bytes| == 6 && ParsePieces(bytes[..i]) == Some(parsed)
    requires acc == FoldBytes(parsed)
    ensures piece.None? ==> ParsePieces(bytes).None?
    ensures piece.Some? ==>
      ParsePieces(bytes[..i + 1]) == Some(parsed + [piece.value]) && next == FoldBytes(parsed + [piece.value])
  {
    var p := FromStrRadix16(bytes[i], U8_BOUND);
    if p.None? {
      ParsePiecesStops(bytes, i);
      return None, acc;
    }
    ParsePiecesPrefix(bytes, i, parsed, p.value);
    AccumulateByte(parsed, p.value);
    piece := Some(p.value as u8);
    next := BitOr(ShiftLeft8(acc), p.value);
  }

  /** Parsing one more piece extends the parsed prefix by its value. */
  lemma ParsePiecesPrefix(pieces: seq<string>, i: nat, parsed: seq<u8>, v: u8)
    requires i < |pieces| && ParsePieces(pieces[..i]) == Some(parsed)
    requires FromStrRadix16(pieces[i], U8_BOUND) == Some(v)
    ensures ParsePieces(pieces[..i + 1]) == Some(parsed + [v])
  {
    var extended := pieces[..i + 1];
    assert extended[..|extended| - 1] == pieces[..i];
    assert extended[|extended| - 1] == pieces[i];
  }

  /** `x << 8` on a u64: the eight bits shifted past bit 63 are lost. */
  function ShiftLeft8(x: u64): (r: u64)
    ensures x < U64_BOUND / 0x100 ==> r == x * 0x100
  {
    (x * 0x100) % U64_BOUND
  }

  /** `a | b` on unsigned integers, one bit at a time from the lowest. */
  function BitOr(a: nat, b: nat): nat
    decreases a + b
  {
    if a == 0 then b
    else if b == 0 then a
    else BitOr(a / 2, b / 2) * 2 + (if a % 2 == 1 || b % 2 == 1 then 1 else 0)
  }

  function Pow2(k: nat): (p: nat)
    ensures p >= 1
  {
    if k == 0 then 1 else 2 * Pow2(k - 1)
  }

  /** Or-ing a value below 2^k into a number whose low k bits are zero adds
      it. */
  lemma {:induction false} BitOrLowBits(x: nat, v: nat, k: nat)
    requires v < Pow2(k)
    ensures BitOr(x * Pow2(k), v) == x * Pow2(k) + v
  {
    if k > 0 && x > 0 && v > 0 {
      var a := x * Pow2(k);
      assert a == 2 * (x * Pow2(k - 1));
      BitOrLowBits(x, v / 2, k - 1);
      assert BitOr(a, v) == BitOr(a / 2, v / 2) * 2 + v % 2;
    }
  }

  /** One step of the loop in `decode_bluetooth_adddress`: while the
      accumulator still fits in 56 bits, `(converted << 8) | v` appends the
      byte `v` below it. */
  lemma ShiftOrAppendsByte(converted: u64, v: u8)
    requires converted < U64_BOUND / 0x100
    ensures BitOr(ShiftLeft8(converted), v) == converted * 0x100 + v
  {
    assert Pow2(8) == 0x100;
    BitOrLowBits(converted, v, 8);
  }

  /** With at most five bytes accumulated, the next step of the loop
      extends the big-endian fold by one byte. */
  lemma AccumulateByte(parsed: seq<u8>, v: u8)
    requires |parsed| <= 5
    ensures FoldBytes(parsed) < U64_BOUND / 0x100
    ensures BitOr(ShiftLeft8(FoldBytes(parsed)), v) == FoldBytes(parsed + [v]) < U64_BOUND
  {
    FoldBytesBound(parsed);
    Pow256Monotone(|parsed|, 5);
    ShiftOrAppendsByte(FoldBytes(parsed), v);
    FoldBytesSnoc(parsed, v);
  }

  lemma DecodeAddressNotSix(value: string)
    requires FromStrRadix16(value, U64_BOUND).None? && |Split(value, ':')| != 6
    ensures DecodeAddress(value) == Err("given address is not 6 byte form")
  {
  }

  lemma DecodeAddressBadPiece(value: string)
    requires FromStrRadix16(value, U64_BOUND).None? && |Split(value, ':')| == 6
    requires ParsePieces(Split(value, ':')).None?
    ensures DecodeAddress(value) == Err("parsing error.")
  {
  }

  lemma DecodeAddressSix(value: string)
    requires FromStrRadix16(value, U64_BOUND).None? && |Split(value, ':')| == 6
    requires ParsePieces(Split(value, ':')).Some?
    ensures DecodeAddress(value) == Ok(FoldBytes(ParsePieces(Split(value, ':')).value))
  {
  }

  lemma FoldBytesSnoc(bs: seq<u8>, v: u8)
    ensures FoldBytes(bs + [v]) == FoldBytes(bs) * 0x100 + v
  {
    assert (bs + [v])[..|bs|] == bs;
  }

  lemma ParsePiecesStops(pieces: seq<string>, i: nat)
    requires i < |pieces| && FromStrRadix16(pieces[i], U8_BOUND).None?
    ensures ParsePieces(pieces).None?
  {
  }

  lemma {:induction false} Pow256Monotone(m: nat, n: nat)
    requires m <= n
    ensures Pow256(m) <= Pow256(n)
  {
    if m < n {
      Pow256Monotone(m, n - 1);
    }
  }

  /** Rendering an address and parsing it back gives its low 48 bits, so
      every 48-bit address survives the round trip unchanged. */
  lemma FormatThenDecode(a: u64)
    ensures DecodeAddress(FormatBluetoothAddress(a)) == Ok(a % U48_BOUND)
  {
    var s := FormatBluetoothAddress(a);
    var b := AddressBytes(a);
    var h := HexPieces(a);
    JoinLayout(h, ':');
    // The whole string is not a hex number: position 2 is a colon.
    assert s[2] == ':' && !IsHexDigit(s[2]);
    assert s[0] == h[0][0] && IsHexDigit(s[0]);
    FromStrRadix16Plain(s, U64_BOUND);
    forall k | 0 <= k < 6 ensures ':' !in h[k] {
      assert AllHexDigits(h[k]);
    }
    JoinThenSplit(h, ':');
    forall k | 0 <= k < 6 ensures FromStrRadix16(h[k], U8_BOUND) == Some(b[k]) {
      assert IsHexDigit(h[k][0]);
      FromStrRadix16Plain(h[k], U8_BOUND);
    }
    var parsed := ParsePieces(h);
    assert parsed.Some?;
    assert parsed.value == b;
    AddressBytesFold(a);
  }

  /** Accumulating the six address bytes big-endian gives the low 48 bits. */
  lemma AddressBytesFold(a: u64)
    ensures FoldBytes(AddressBytes(a)) == a % U48_BOUND
  {
    var b := AddressBytes(a);
    var t1, t2, t3, t4, t5 := Shr8(a, 1), Shr8(a, 2), Shr8(a, 3), Shr8(a, 4), Shr8(a, 5);
    var t6 := Shr8(a, 6);
    assert Shr8(a, 0) == a;
    assert t1 == a / 0x100;
    assert a == t1 * 0x100 + b[5];
    assert t1 == t2 * 0x100 + b[4];
    assert t2 == t3 * 0x100 + b[3];
    assert t3 == t4 * 0x100 + b[2];
    assert t4 == t5 * 0x100 + b[1];
    assert t5 == t6 * 0x100 + b[0];
    FoldSix(b);
    assert a == t6 * U48_BOUND + FoldBytes(b);
    FoldBytesBound(b);
    assert Pow256(6) == U48_BOUND;
    LowBits48(a, t6, FoldBytes(b));
  }

  lemma LowBits48(x: int, q: int, r: int)
    requires 0 <= r < U48_BOUND && x == q * U48_BOUND + r
    ensures x % U48_BOUND == r
  {
  }

  /** `FoldBytes` written out for six bytes. */
  lemma FoldSix(b: seq<u8>)
    requires |b| == 6
    ensures FoldBytes(b) ==
      ((((b[0] as int * 0x100 + b[1]) * 0x100 + b[2]) * 0x100 + b[3]) * 0x100 + b[4]) * 0x100 + b[5]
  {
    assert b[..6] == b;
    forall n | 1 <= n <= 6 ensures FoldBytes(b[..n]) == FoldBytes(b[..n - 1]) * 0x100 + b[n - 1] {
      assert b[..n][..n - 1] == b[..n - 1];
    }
    assert b[..0] == [];
  }

  // ---------------------------------------------------------------------
  // Config and get_device_by_name
  // ---------------------------------------------------------------------

  /** One `[[device]]` entry of the configuration file. */
  datatype DeviceConfig = DeviceConfig(
    address: u64,
    name: Option<string>,
    omit: Option<bool>,
    timezone: Option<string>,
    offsetSeconds: Option<i32>)

  /** ASCII lower-casing of every character. */
  function AsciiLower(s: string): (t: string)
    ensures |t| == |s|
    ensures forall i | 0 <= i < |s| :: !('A' <= t[i] <= 'Z')
    ensures forall i | 0 <= i < |s| :: 'A' <= s[i] <= 'Z' ==> 'a' <= t[i] <= 'z' && t[i] as int == s[i] as int + 32
    ensures forall i | 0 <= i < |s| :: !('A' <= s[i] <= 'Z') ==> t[i] == s[i]
  {
    seq(|s|, i requires 0 <= i < |s| => if 'A' <= s[i] <= 'Z' then (s[i] as int + 32) as char else s[i])
  }

  /** Two characters that are equal, or the same ASCII letter in different
      case. */
  predicate SameIgnoringCase(c: char, d: char) {
    || c == d
    || ('A' <= c <= 'Z' && d as int == c as int + 32)
    || ('A' <= d <= 'Z' && c as int == d as int + 32)
  }

  /** Lower-casing identifies exactly the strings that agree position by
      position up to the case of ASCII letters. */
  lemma AsciiLowerEqualIff(x: string, y: string)
    ensures AsciiLower(x) == AsciiLower(y) <==>
      |x| == |y| && forall i | 0 <= i < |x| :: SameIgnoringCase(x[i], y[i])
  {
    var lx, ly := AsciiLower(x), AsciiLower(y);
    if |x| == |y| {
      if forall i | 0 <= i < |x| :: SameIgnoringCase(x[i], y[i]) {
        forall i | 0 <= i < |x| ensures lx[i] == ly[i] {
          LowerSameIgnoringCase(x, y, i);
        }
        assert lx == ly;
      }
      if lx == ly {
        forall i | 0 <= i < |x| ensures SameIgnoringCase(x[i], y[i]) {
          assert lx[i] == ly[i];
        }
      }
    }
  }

  lemma LowerSameIgnoringCase(x: string, y: string, i: int)
    requires |x| == |y| && 0 <= i < |x| && SameIgnoringCase(x[i], y[i])
    ensures AsciiLower(x)[i] == AsciiLower(y)[i]
  {
  }

  /** The device has a name, equal to `query` up to letter case. */
  predicate NameMatches(d: DeviceConfig, query: string) {
    d.name.Some? && AsciiLower(d.name.value) == AsciiLower(query)
  }

  datatype Config = Config(devices: Option<seq<DeviceConfig>>) {

    /** The first configured device whose name equals `name` ignoring case;
        `None` when there is no device list or no name matches. */
    method GetDeviceByName(name: string) returns (r: Option<DeviceConfig>)
      ensures r.None? <==>
        devices.None? || forall i | 0 <= i < |devices.value| :: !NameMatches(devices.value[i], name)
      ensures r.Some? ==> devices.Some? && exists i | 0 <= i < |devices.value| ::
                            && devices.value[i] == r.value
                            && NameMatches(r.value, name)
                            && forall j | 0 <= j < i :: !NameMatches(devices.value[j], name)
    {
      if devices.None? {
        return None;
      }
      var ds := devices.value;
      for i := 0 to |ds|
        invariant forall j | 0 <= j < i :: !NameMatches(ds[j], name)
      {
        if NameMatches(ds[i], name) {
          return Some(ds[i]);
        }
      }
      return None;
    }
  }

  // ---------------------------------------------------------------------
  // The crate's own test cases
  // ---------------------------------------------------------------------

  /** The decoding test case in plain hex form. */
  lemma DecodePlainExample()
    ensures DecodeAddress("112233445566") == Ok(0x112233445566)
  {
    PlainHexValue();
    FromStrRadix16Plain("112233445566", U64_BOUND);
  }

  lemma PlainHexValue()
    ensures AllHexDigits("112233445566") && HexValue("112233445566") == 0x112233445566
  {
    PlainHexPrefix();
    assert "112233" + ['4'] == "1122334";
    HexValueSnoc("112233", '4');
    assert "1122334" + ['4'] == "11223344";
    HexValueSnoc("1122334", '4');
    assert "11223344" + ['5'] == "112233445";
    HexValueSnoc("11223344", '5');
    assert "112233445" + ['5'] == "1122334455";
    HexValueSnoc("112233445", '5');
    assert "1122334455" + ['6'] == "11223344556";
    HexValueSnoc("1122334455", '6');
    assert "11223344556" + ['6'] == "112233445566";
    HexValueSnoc("11223344556", '6');
  }

  lemma PlainHexPrefix()
    ensures AllHexDigits("112233") && HexValue("112233") == 0x112233
  {
    assert "" + ['1'] == "1";
    HexValueSnoc("", '1');
    assert "1" + ['1'] == "11";
    HexValueSnoc("1", '1');
    assert "11" + ['2'] == "112";
    HexValueSnoc("11", '2');
    assert "112" + ['2'] == "1122";
    HexValueSnoc("112", '2');
    assert "1122" + ['3'] == "11223";
    HexValueSnoc("1122", '3');
    assert "11223" + ['3'] == "112233";
    HexValueSnoc("11223", '3');
  }

  lemma HexValueSnoc(s: string, c: char)
    requires AllHexDigits(s) && IsHexDigit(c)
    ensures AllHexDigits(s + [c]) && HexValue(s + [c]) == HexValue(s) * 16 + DigitValue(c)
  {
    assert (s + [c])[..|s|] == s;
  }

  /** The decoding test case in colon form with two-digit bytes. */
  lemma DecodeColonExample()
    ensures DecodeAddress("11:22:33:44:55:66") == Ok(0x112233445566)
  {
    FormatExample();
    FormatThenDecode(0x112233445566);
  }

  /** The decoding test cases with too few and too many pieces. */
  lemma DecodeWrongPieceCounts()
    ensures DecodeAddress("11:22") == Err("given address is not 6 byte form")
    ensures DecodeAddress("11:22:33:44:55:66:77") == Err("given address is not 6 byte form")
  {
    TwoPieces();
    SevenPieces();
    DecodeAddressNotSix("11:22");
    DecodeAddressNotSix("11:22:33:44:55:66:77");
  }

  lemma TwoPieces()
    ensures |Split("11:22", ':')| == 2
    ensures FromStrRadix16("11:22", U64_BOUND).None?
  {
    var h := ["11", "22"];
    assert Join(h, ':') == "11:22";
    JoinThenSplit(h, ':');
    FromStrRadix16Plain("11:22", U64_BOUND);
    assert !IsHexDigit("11:22"[2]);
  }

  lemma SevenPieces()
    ensures |Split("11:22:33:44:55:66:77", ':')| == 7
    ensures FromStrRadix16("11:22:33:44:55:66:77", U64_BOUND).None?
  {
    SevenSplit();
    FromStrRadix16Plain("11:22:33:44:55:66:77", U64_BOUND);
    assert !IsHexDigit("11:22:33:44:55:66:77"[2]);
  }

  lemma SevenSplit()
    ensures Split("11:22:33:44:55:66:77", ':') == ["11", "22", "33", "44", "55", "66", "77"]
  {
    SevenJoin();
    JoinThenSplit(["11", "22", "33", "44", "55", "66", "77"], ':');
  }

  lemma SevenJoin()
    ensures Join(["11", "22", "33", "44", "55", "66", "77"], ':') == "11:22:33:44:55:66:77"
  {
    var h := ["11", "22", "33", "44", "55", "66", "77"];
    assert Join(h[5..], ':') == "66:77";
    assert Join(h[3..], ':') == "44:55:66:77";
    assert Join(h[1..], ':') == "22:33:44:55:66:77";
  }

  /** The formatting test cases. */
  lemma FormatExample()
    ensures FormatBluetoothAddress(0x112233445566) == "11:22:33:44:55:66"
  {
    PiecesExample();
    JoinExample();
  }

  lemma JoinExample()
    ensures Join(["11", "22", "33", "44", "55", "66"], ':') == "11:22:33:44:55:66"
  {
    var h := ["11", "22", "33", "44", "55", "66"];
    assert Join(h[4..], ':') == "55:66";
    assert Join(h[2..], ':') == "33:44:55:66";
  }

  lemma PiecesExample()
    ensures HexPieces(0x112233445566) == ["11", "22", "33", "44", "55", "66"]
  {
    BytesExample();
  }

  lemma BytesExample()
    ensures AddressBytes(0x112233445566) == [0x11, 0x22, 0x33, 0x44, 0x55, 0x66]
  {
    var a := 0x112233445566;
    assert Shr8(a, 0) == a;
    assert Shr8(a, 1) == 0x1122334455;
    assert Shr8(a, 2) == 0x11223344;
    assert Shr8(a, 3) == 0x112233;
    assert Shr8(a, 4) == 0x1122;
    assert Shr8(a, 5) == 0x11;
  }

  lemma FormatUpperExample()
    ensures FormatBluetoothAddress(0x0a0b0c0d0e0f) == "0A:0B:0C:0D:0E:0F"
  {
    UpperPiecesExample();
    UpperJoinExample();
  }

  lemma UpperJoinExample()
    ensures Join(["0A", "0B", "0C", "0D", "0E", "0F"], ':') == "0A:0B:0C:0D:0E:0F"
  {
    var h := ["0A", "0B", "0C", "0D", "0E", "0F"];
    assert Join(h[4..], ':') == "0E:0F";
    assert Join(h[2..], ':') == "0C:0D:0E:0F";
  }

  lemma UpperPiecesExample()
    ensures HexPieces(0x0a0b0c0d0e0f) == ["0A", "0B", "0C", "0D", "0E", "0F"]
  {
    UpperBytesExample();
  }

  lemma UpperBytesExample()
    ensures AddressBytes(0x0a0b0c0d0e0f) == [0x0a, 0x0b, 0x0c, 0x0d, 0x0e, 0x0f]
  {
    var a := 0x0a0b0c0d0e0f;
    assert Shr8(a, 0) == a;
    assert Shr8(a, 1) == 0x0a0b0c0d0e;
    assert Shr8(a, 2) == 0x0a0b0c0d;
    assert Shr8(a, 3) == 0x0a0b0c;
    assert Shr8(a, 4) == 0x0a0b;
    assert Shr8(a, 5) == 0x0a;
  }

  /** The decoding test case with single lower- and upper-case digits. */
  lemma DecodeLower()
    ensures DecodeAddress("A:b:c:d:e:f") == Ok(0x0a0b0c0d0e0f)
  {
    var bs: seq<u8> := [10, 11, 12, 13, 14, 15];
    SplitLowerExample();
    WholeNotHex();
    ParseLowerExample();
    FoldSix(bs);
  }

  lemma WholeNotHex()
    ensures FromStrRadix16("A:b:c:d:e:f", U64_BOUND).None?
  {
    FromStrRadix16Plain("A:b:c:d:e:f", U64_BOUND);
    assert !IsHexDigit("A:b:c:d:e:f"[1]);
  }

  lemma ParseLowerExample()
    ensures ParsePieces(["A", "b", "c", "d", "e", "f"]) == Some([10, 11, 12, 13, 14, 15])
  {
    var h := ["A", "b", "c", "d", "e", "f"];
    var bs: seq<u8> := [10, 11, 12, 13, 14, 15];
    OneDigit('A');
    OneDigit('b');
    OneDigit('c');
    OneDigit('d');
    OneDigit('e');
    OneDigit('f');
    assert forall k | 0 <= k < 6 :: FromStrRadix16(h[k], U8_BOUND) == Some(bs[k]);
    var r := ParsePieces(h);
    assert r.Some?;
    assert r.value == bs;
  }

  lemma SplitLowerExample()
    ensures Split("A:b:c:d:e:f", ':') == ["A", "b", "c", "d", "e", "f"]
  {
    var h := ["A", "b", "c", "d", "e", "f"];
    assert Join(h, ':') == "A:b:c:d:e:f";
    JoinThenSplit(h, ':');
  }

  lemma OneDigit(c: char)
    requires IsHexDigit(c)
    ensures FromStrRadix16([c], U8_BOUND) == Some(DigitValue(c))
  {
    assert [c][..0] == [];
    assert [c][0] == c && c != '+';
    assert AllHexDigits([c]);
    assert HexValue([c]) == DigitValue(c);
  }
}
