/** `impl From<MacToml> for Mac` of the build scripts
    (hardworker/ebpf/build.rs, lines 74-81, and the same code in
    hardworker/user/build.rs, lines 72-101): each of the three MAC strings of
    `const.toml` is split on `:`, every piece is parsed with
    `u8::from_str_radix(piece, 16)` and unwrapped, and the bytes are turned
    into a `[u8; 6]` by an unwrapped `try_into`. A panic is modelled as an
    error value naming where it happens. */
module MacAddress {
  import opened Bytes
  import opened Seqs
  import opened Wrappers
  import opened Xdp
  import opened Hexdump

  /** `str::split(':')`: the pieces between colons, an empty piece where two
      colons meet or at either end, and one piece for a string with no colon. */
  function Split(s: string): (ps: seq<string>)
    ensures |ps| >= 1
  {
    if s == [] then [[]]
    else
      var p := Split(s[..|s| - 1]);
      if s[|s| - 1] == ':' then p + [[]]
      else p[..|p| - 1] + [p[|p| - 1] + [s[|s| - 1]]]
  }

  /** The pieces joined back with `:` between them. */
  function Join(ps: seq<string>): string
    requires |ps| >= 1
  {
    if |ps| == 1 then ps[0] else Join(ps[..|ps| - 1]) + [':'] + ps[|ps| - 1]
  }

  predicate NoColon(s: string)
  {
    forall k :: 0 <= k < |s| ==> s[k] != ':'
  }

  /** Splitting loses nothing but the colons: the pieces hold no colon and
      join back to the string. */
  lemma JoinSplit(s: string)
    ensures Join(Split(s)) == s
    ensures forall i :: 0 <= i < |Split(s)| ==> NoColon(Split(s)[i])
  {
    JoinOfSplit(s);
    PiecesHaveNoColon(s);
  }

  lemma {:induction false} JoinOfSplit(s: string)
    ensures Join(Split(s)) == s
  {
    if s != [] {
      var front, c := s[..|s| - 1], s[|s| - 1];
      var p := Split(front);
      JoinOfSplit(front);
      if c == ':' {
        JoinAppend(p, []);
      } else {
        var q, l := p[..|p| - 1], p[|p| - 1];
        assert p == q + [l];
        JoinExtendLast(q, l, c);
      }
      SnocLast(s);
    }
  }

  /** Appending a piece appends a colon and the piece. */
  lemma JoinAppend(p: seq<string>, y: string)
    requires |p| >= 1
    ensures Join(p + [y]) == Join(p) + [':'] + y
  {
    assert (p + [y])[..|p|] == p;
  }

  /** Extending the last piece by a character extends the joined string by
      that character. */
  lemma JoinExtendLast(q: seq<string>, l: string, c: char)
    ensures Join(q + [l + [c]]) == Join(q + [l]) + [c]
  {
    if q != [] {
      JoinAppend(q, l + [c]);
      JoinAppend(q, l);
    }
  }

  lemma {:induction false} PiecesHaveNoColon(s: string)
    ensures forall i :: 0 <= i < |Split(s)| ==> NoColon(Split(s)[i])
  {
    if s != [] {
      var front := s[..|s| - 1];
      PiecesHaveNoColon(front);
      var p, ps := Split(front), Split(s);
      if s[|s| - 1] != ':' {
        assert ps[|ps| - 1] == p[|p| - 1] + [s[|s| - 1]];
      }
    }
  }

  /** A string with no colon is a single piece. */
  lemma {:induction false} SplitNoColon(s: string)
    requires NoColon(s)
    ensures Split(s) == [s]
  {
    if s != [] {
      var front := s[..|s| - 1];
      assert NoColon(front) by {
        forall k | 0 <= k < |front| ensures front[k] != ':' { assert front[k] == s[k]; }
      }
      SplitNoColon(front);
      SnocLast(s);
    }
  }

  /** Appending a colon and a colon-free piece appends one piece. */
  lemma {:induction false} SplitAppend(x: string, y: string)
    requires NoColon(y)
    ensures Split(x + [':'] + y) == Split(x) + [y]
    decreases |y|
  {
    var s := x + [':'] + y;
    if y == [] {
      assert s[..|s| - 1] == x;
    } else {
      var y' := y[..|y| - 1];
      SplitAppend(x, y');
      assert s[..|s| - 1] == x + [':'] + y';
      SnocLast(y);
    }
  }

  /** Joining colon-free pieces and splitting again gives the pieces back. */
  lemma {:induction false} SplitJoin(ps: seq<string>)
    requires |ps| >= 1 && forall i :: 0 <= i < |ps| ==> NoColon(ps[i])
    ensures Split(Join(ps)) == ps
  {
    if |ps| == 1 {
      SplitNoColon(ps[0]);
    } else {
      var front := ps[..|ps| - 1];
      SplitJoin(front);
      SplitAppend(Join(front), ps[|ps| - 1]);
      SnocLast(ps);
    }
  }

  /** `core::num::IntErrorKind`, the three kinds `from_str_radix` raises
      for an unsigned type. */
  datatype IntErrorKind = Empty | InvalidDigit | PosOverflow

  /** `char::to_digit(16)`: the digits 0-9 and the letters a-f of either case. */
  predicate IsHexDigit(c: char)
  {
    '0' <= c <= '9' || 'a' <= c <= 'f' || 'A' <= c <= 'F'
  }

  predicate AllHex(s: string)
  {
    forall k :: 0 <= k < |s| ==> IsHexDigit(s[k])
  }

  /** The digit loop of `from_str_radix`: for each character the next
      multiple of 16 is computed, the character is checked to be a digit, and
      then the multiplication and the addition are checked not to leave the
      byte range. */
  function Accumulate(digits: string, acc: u8): (r: Result<u8, IntErrorKind>)
    ensures r.Err? ==> r.error == InvalidDigit || r.error == PosOverflow
    decreases |digits|
  {
    if digits == [] then Ok(acc)
    else if !IsHexDigit(digits[0]) then Err(InvalidDigit)
    else if acc * 16 > 0xFF || acc * 16 + DigitValue(digits[0]) > 0xFF then Err(PosOverflow)
    else Accumulate(digits[1..], acc * 16 + DigitValue(digits[0]))
  }

  /** The digits `from_str_radix` reads: one leading `+` is skipped (a `-`
      is not, since `u8` is unsigned, and is then an invalid digit). */
  function Unsigned(s: string): string
  {
    if |s| > 0 && s[0] == '+' then s[1..] else s
  }

  /** `u8::from_str_radix(s, 16)`. */
  function FromStrRadix16(s: string): (r: Result<u8, IntErrorKind>)
    ensures r == Err(Empty) <==> s == []
    ensures |s| == 1 && (s[0] == '+' || s[0] == '-') ==> r == Err(InvalidDigit)
  {
    if s == [] then Err(Empty)
    else if (s[0] == '+' || s[0] == '-') && |s| == 1 then Err(InvalidDigit)
    else Accumulate(Unsigned(s), 0)
  }

  lemma {:induction false} HexValueCons(c: char, rest: string)
    ensures HexValue([c] + rest) == DigitValue(c) * Pow16(|rest|) + HexValue(rest)
    decreases |rest|
  {
    var s := [c] + rest;
    if rest != [] {
      var r', last := rest[..|rest| - 1], rest[|rest| - 1];
      var d, p := DigitValue(c), Pow16(|r'|);
      assert s[..|s| - 1] == [c] + r' && s[|s| - 1] == last;
      HexValueCons(c, r');
      assert HexValue(s) == (d * p + HexValue(r')) * 16 + DigitValue(last);
      assert HexValue(rest) == HexValue(r') * 16 + DigitValue(last);
      assert Pow16(|rest|) == 16 * p;
      TimesSixteen(d, p, HexValue(r'));
    }
  }

  lemma TimesSixteen(d: int, p: int, h: int)
    ensures (d * p + h) * 16 == d * (16 * p) + h * 16
  {
  }

  /** Reading one more digit `d` in front of `n` digits worth `h`. */
  lemma ShiftIn(acc: nat, d: nat, n: nat, h: nat)
    ensures acc * Pow16(n + 1) + (d * Pow16(n) + h) == (acc * 16 + d) * Pow16(n) + h
    ensures acc * 16 + d <= (acc * 16 + d) * Pow16(n) + h
  {
    assert Pow16(n + 1) == 16 * Pow16(n);
    assert acc * (16 * Pow16(n)) == (acc * 16) * Pow16(n);
  }

  /** The digit loop succeeds exactly when every character is a hex digit
      and the accumulated number, read in full, fits in a byte; it then
      returns that number. */
  lemma {:induction false} AccumulateSpec(digits: string, acc: u8)
    ensures Accumulate(digits, acc).Ok?
            <==> AllHex(digits) && acc * Pow16(|digits|) + HexValue(digits) <= 0xFF
    ensures Accumulate(digits, acc).Ok?
            ==> Accumulate(digits, acc).value == acc * Pow16(|digits|) + HexValue(digits)
    decreases |digits|
  {
    if digits != [] {
      var c, rest := digits[0], digits[1..];
      assert digits == [c] + rest;
      HexValueCons(c, rest);
      if IsHexDigit(c) {
        var next := acc * 16 + DigitValue(c);
        ShiftIn(acc, DigitValue(c), |rest|, HexValue(rest));
        if next <= 0xFF {
          AccumulateSpec(rest, next);
          assert AllHex(digits) <==> AllHex(rest);
        }
      }
    }
  }

  /** A piece `from_str_radix` accepts: after an optional `+`, one or more
      hex digits of either case whose value is at most 0xFF (leading zeros
      allowed). */
  predicate ValidByte(s: string)
  {
    |Unsigned(s)| >= 1 && AllHex(Unsigned(s)) && HexValue(Unsigned(s)) <= 0xFF
  }

  /** `from_str_radix` accepts exactly the valid pieces and returns their
      value; the empty piece is the one `Empty` error. */
  lemma FromStrRadix16Spec(s: string)
    ensures FromStrRadix16(s).Ok? <==> ValidByte(s)
    ensures FromStrRadix16(s).Ok? ==> FromStrRadix16(s).value == HexValue(Unsigned(s))
    ensures FromStrRadix16(s) == Err(Empty) <==> s == []
  {
    AccumulateSpec(Unsigned(s), 0);
    if s != [] && (s[0] == '+' || s[0] == '-') && |s| == 1 {
      assert !IsHexDigit(s[0]);
    }
  }

  /** The `map(..unwrap())` over the pieces, collected: the bytes in order,
      or the panic of the first piece that does not parse. */
  function ParsePieces(ps: seq<string>): (r: Result<seq<u8>, (nat, IntErrorKind)>)
    ensures r.Ok? ==> |r.value| == |ps|
    ensures r.Err? ==> r.error.0 < |ps|
  {
    if ps == [] then Ok([])
    else
      var front := ParsePieces(ps[..|ps| - 1]);
      if front.Err? then front
      else
        match FromStrRadix16(ps[|ps| - 1])
        case Err(k) => Err((|ps| - 1, k))
        case Ok(b) => Ok(front.value + [b])
  }

  /** The pieces parse exactly when each is valid, into their values in
      textual order; otherwise the panic names the first invalid piece. */
  lemma {:induction false} ParsePiecesSpec(ps: seq<string>)
    ensures ParsePieces(ps).Ok? <==> forall i :: 0 <= i < |ps| ==> ValidByte(ps[i])
    ensures ParsePieces(ps).Ok? ==>
      forall i :: 0 <= i < |ps| ==> ParsePieces(ps).value[i] == HexValue(Unsigned(ps[i]))
    ensures ParsePieces(ps).Err? ==>
      var (i, k) := ParsePieces(ps).error;
      && !ValidByte(ps[i]) && FromStrRadix16(ps[i]) == Err(k)
      && forall j :: 0 <= j < i ==> ValidByte(ps[j])
  {
    if ps != [] {
      var front := ps[..|ps| - 1];
      ParsePiecesSpec(front);
      FromStrRadix16Spec(ps[|ps| - 1]);
      forall i | 0 <= i < |front| ensures front[i] == ps[i] { }
    }
  }

  /** What `Mac::from` panics with for one address. */
  datatype MacPanic = ParsePanic(piece: nat, kind: IntErrorKind) | LengthPanic(count: nat)

  /** One address: split, parse every piece, then demand exactly six. */
  function ParseMac(s: string): (r: Result<Mac, MacPanic>)
    ensures r.Ok? ==> |Split(s)| == 6
    ensures r.Err? && r.error.ParsePanic? ==> r.error.piece < |Split(s)|
    ensures r.Err? && r.error.LengthPanic? ==> r.error.count == |Split(s)| != 6
  {
    match ParsePieces(Split(s))
    case Err((i, k)) => Err(ParsePanic(i, k))
    case Ok(bytes) => if |bytes| != 6 then Err(LengthPanic(|bytes|)) else Ok(bytes)
  }

  /** An address parses exactly when it has six pieces, each a valid byte,
      and its bytes are their values in textual order. A bad piece panics
      before the count is looked at, so the length panic is raised only when
      every piece is valid. */
  lemma ParseMacSpec(s: string)
    ensures ParseMac(s).Ok? <==> |Split(s)| == 6 && forall i :: 0 <= i < 6 ==> ValidByte(Split(s)[i])
    ensures ParseMac(s).Ok? ==> forall i :: 0 <= i < 6 ==> ParseMac(s).value[i] == HexValue(Unsigned(Split(s)[i]))
    ensures ParseMac(s).Err? && ParseMac(s).error.LengthPanic? ==>
      ParseMac(s).error.count == |Split(s)| != 6 && forall i :: 0 <= i < |Split(s)| ==> ValidByte(Split(s)[i])
    ensures ParseMac(s).Err? && ParseMac(s).error.ParsePanic? ==>
      var i := ParseMac(s).error.piece;
      i < |Split(s)| && !ValidByte(Split(s)[i]) && forall j :: 0 <= j < i ==> ValidByte(Split(s)[j])
  {
    ParsePiecesSpec(Split(s));
  }

  /** The usual text form of an address: six two-digit lower-case hex
      bytes separated by colons. */
  function FormatMac(m: Mac): string
  {
    Join(seq(6, i requires 0 <= i < 6 => Padded(m[i], 2)))
  }

  lemma {:induction false} HexDigitsAreHex(x: nat)
    ensures AllHex(HexDigits(x)) && HexDigits(x)[0] != '+' && HexDigits(x)[0] != '-'
    decreases x
  {
    if x >= 16 {
      HexDigitsAreHex(x / 16);
    }
  }

  /** Two hex digits of a byte form a valid piece holding no colon that
      parses back to the byte. */
  lemma PaddedByte(b: u8)
    ensures |Padded(b, 2)| == 2 && NoColon(Padded(b, 2)) && FromStrRadix16(Padded(b, 2)) == Ok(b)
  {
    PaddedValue(b, 2);
    HexDigitsAreHex(b);
    var p := Padded(b, 2);
    assert AllHex(p);
    assert p[0] != '+';
    FromStrRadix16Spec(p);
  }

  /** Formatting an address and parsing it back gives the address. */
  lemma ParseFormat(m: Mac)
    ensures ParseMac(FormatMac(m)) == Ok(m)
  {
    var ps := seq(6, i requires 0 <= i < 6 => Padded(m[i], 2));
    forall i | 0 <= i < 6 ensures NoColon(ps[i]) && ValidByte(ps[i]) && HexValue(Unsigned(ps[i])) == m[i] {
      PaddedByte(m[i]);
      FromStrRadix16Spec(ps[i]);
    }
    SplitJoin(ps);
    ParseMacSpec(FormatMac(m));
    var r := ParseMac(FormatMac(m));
    assert r.Ok?;
    assert r.value == m by {
      forall i | 0 <= i < 6 ensures r.value[i] == m[i] { }
    }
  }

  /** The three address strings of `const.toml`. */
  datatype MacToml = MacToml(logger: string, hardworker: string, sensor: string)

  datatype Field = Logger | Hardworker | Sensor

  /** `Mac::from`: the three fields parsed in the order written, so the
      first one that fails is the one that panics. */
  function MacsFrom(t: MacToml): (r: Result<Macs, (Field, MacPanic)>)
    ensures r.Ok? ==>
      && ParseMac(t.logger) == Ok(r.value.logger)
      && ParseMac(t.hardworker) == Ok(r.value.hardworker)
      && ParseMac(t.sensor) == Ok(r.value.sensor)
    ensures r.Err? ==>
      match r.error.0
      case Logger => ParseMac(t.logger) == Err(r.error.1)
      case Hardworker => ParseMac(t.hardworker) == Err(r.error.1)
      case Sensor => ParseMac(t.sensor) == Err(r.error.1)
  {
    match ParseMac(t.logger)
    case Err(e) => Err((Logger, e))
    case Ok(logger) =>
      match ParseMac(t.hardworker)
      case Err(e) => Err((Hardworker, e))
      case Ok(hardworker) =>
        match ParseMac(t.sensor)
        case Err(e) => Err((Sensor, e))
        case Ok(sensor) => Ok(Macs(logger, hardworker, sensor))
  }

  /** The build succeeds exactly when all three strings parse, and each
      field then holds the address of the string of the same name. */
  lemma MacsFromSpec(t: MacToml)
    ensures MacsFrom(t).Ok? <==> ParseMac(t.logger).Ok? && ParseMac(t.hardworker).Ok? && ParseMac(t.sensor).Ok?
    ensures MacsFrom(t).Ok? ==>
      && MacsFrom(t).value.logger == ParseMac(t.logger).value
      && MacsFrom(t).value.hardworker == ParseMac(t.hardworker).value
      && MacsFrom(t).value.sensor == ParseMac(t.sensor).value
    ensures MacsFrom(t).Err? ==>
      match MacsFrom(t).error.0
      case Logger => ParseMac(t.logger).Err?
      case Hardworker => ParseMac(t.logger).Ok? && ParseMac(t.hardworker).Err?
      case Sensor => ParseMac(t.logger).Ok? && ParseMac(t.hardworker).Ok? && ParseMac(t.sensor).Err?
  {
  }
}
