/** The IP access-control matcher. A rule is either an address text, matched
    by exact string equality, or a CIDR block `address/prefix` (prefix
    notation of section 3.1 of RFC 4632), matched byte by byte under a
    per-byte mask. Address texts become bytes through a resolver standing
    for `InetAddress.getByName`. */
module IpAcl {
  import opened Bytes

  /** One byte of an address, as the bits the mask is applied to. */
  type Octet = bv8

  /** `InetAddress.getByName(text).address`: the bytes of an address text,
      or None where the call raises (an unresolvable name). */
  type Resolver = string -> Option<seq<Octet>>

  /*********************************************************************
   * String.split and String.toIntOrNull
   *********************************************************************/

  /** Kotlin's `s.split(sep)` with a one-character delimiter: the pieces
      between separators, empty pieces kept. */
  function Split(s: string, sep: char): (parts: seq<string>)
    ensures |parts| == multiset(s)[sep] + 1
    ensures forall i | 0 <= i < |parts| :: sep !in parts[i]
    decreases |s|
  {
    if |s| == 0 then [""]
    else
      var rest := Split(s[1..], sep);
      assert s == [s[0]] + s[1..];
      if s[0] == sep then [""] + rest else [[s[0]] + rest[0]] + rest[1..]
  }

  /** A text with exactly one separator splits into the text before it and
      the text after it. */
  lemma {:induction false} SplitAtSeparator(a: string, b: string, sep: char)
    requires sep !in a && sep !in b
    ensures Split(a + [sep] + b, sep) == [a, b]
  {
    if |a| == 0 {
      assert a + [sep] + b == [sep] + b;
      assert ([sep] + b)[1..] == b;
      SplitWithoutSeparator(b, sep);
    } else {
      var s := a + [sep] + b;
      assert s[1..] == a[1..] + [sep] + b;
      assert s[0] == a[0];
      SplitAtSeparator(a[1..], b, sep);
      assert [a[0]] + a[1..] == a;
    }
  }

  /** The pieces glued back together with the separator between them:
      the inverse of `Split`. */
  function Join(parts: seq<string>, sep: char): string
    decreases |parts|
  {
    if |parts| == 0 then ""
    else if |parts| == 1 then parts[0]
    else parts[0] + [sep] + Join(parts[1..], sep)
  }

  /** Gluing the pieces of a split back together gives the text that was
      split: no character is lost, added or moved. */
  lemma {:induction false} SplitJoin(s: string, sep: char)
    ensures Join(Split(s, sep), sep) == s
    decreases |s|
  {
    if |s| > 0 {
      var rest := Split(s[1..], sep);
      SplitJoin(s[1..], sep);
      assert s == [s[0]] + s[1..];
      if s[0] == sep {
        assert ([""] + rest)[1..] == rest;
      } else {
        JoinFirst([s[0]], rest, sep);
      }
    }
  }

  /** Text put in front of the first piece ends up in front of the join. */
  lemma JoinFirst(c: string, parts: seq<string>, sep: char)
    requires |parts| >= 1
    ensures Join([c + parts[0]] + parts[1..], sep) == c + Join(parts, sep)
  {
    var q := [c + parts[0]] + parts[1..];
    if |parts| > 1 {
      assert q[1..] == parts[1..];
    }
  }

  /** A text without the separator is a single piece. */
  lemma {:induction false} SplitWithoutSeparator(s: string, sep: char)
    requires sep !in s
    ensures Split(s, sep) == [s]
  {
    if |s| > 0 {
      SplitWithoutSeparator(s[1..], sep);
      assert [s[0]] + s[1..] == s;
    }
  }

  predicate IsDigit(c: char)
  {
    '0' <= c <= '9'
  }

  predicate AllDigits(s: string)
  {
    forall i | 0 <= i < |s| :: IsDigit(s[i])
  }

  /** The value of a run of decimal digits, most significant first. */
  function DigitsValue(s: string): nat
    requires AllDigits(s)
    decreases |s|
  {
    if |s| == 0 then 0
    else DigitsValue(s[..|s| - 1]) * 10 + (s[|s| - 1] as int - '0' as int)
  }

  const IntMin: int := -0x8000_0000
  const IntMax: int := 0x7FFF_FFFF

  /** An optional sign followed by at least one decimal digit. */
  predicate IntText(s: string)
  {
    |s| >= 1 && (AllDigits(s) || ((s[0] == '-' || s[0] == '+') && |s| >= 2 && AllDigits(s[1..])))
  }

  /** The value an `IntText` denotes. */
  function TextValue(s: string): int
    requires IntText(s)
  {
    if s[0] == '-' then 0 - DigitsValue(s[1..])
    else if s[0] == '+' then DigitsValue(s[1..])
    else DigitsValue(s)
  }

  /** A value as a 32-bit Int holds it: two's-complement wrap-around. */
  function Wrap32(x: int): (r: int)
    ensures IntMin <= r <= IntMax
    ensures (x - r) % 0x1_0000_0000 == 0
    ensures IntMin <= x <= IntMax ==> r == x
  {
    (x - IntMin) % 0x1_0000_0000 + IntMin
  }

  /** Kotlin's `String.toIntOrNull()` in base ten: an optional sign, at
      least one digit, and a value that fits a 32-bit Int. Leading zeros
      and a plus sign are accepted. */
  function ToIntOrNull(s: string): (r: Option<int>)
    ensures r.Some? <==> IntText(s) && IntMin <= TextValue(s) <= IntMax
    ensures r.Some? ==> r.value == TextValue(s)
  {
    if |s| == 0 then None
    else
      var digits := if s[0] == '-' || s[0] == '+' then s[1..] else s;
      if |digits| == 0 || !AllDigits(digits) then None
      else
        var v: int := if s[0] == '-' then 0 - DigitsValue(digits) else DigitsValue(digits);
        if IntMin <= v <= IntMax then Some(v) else None
  }

  function DigitChar(d: int): (c: char)
    requires 0 <= d < 10
    ensures IsDigit(c) && c as int - '0' as int == d
  {
    ('0' as int + d) as char
  }

  /** The decimal text of a natural number, without leading zeros. */
  function Decimal(n: nat): (s: string)
    ensures |s| >= 1 && AllDigits(s)
    decreases n
  {
    if n < 10 then [DigitChar(n)] else Decimal(n / 10) + [DigitChar(n % 10)]
  }

  lemma {:induction false} DecimalValue(n: nat)
    ensures DigitsValue(Decimal(n)) == n
  {
    if n >= 10 {
      DecimalValue(n / 10);
      var s := Decimal(n);
      assert s[..|s| - 1] == Decimal(n / 10);
    }
  }

  /** toIntOrNull reads back the decimal text of every non-negative Int,
      with or without a plus sign, and of every negative Int after a minus. */
  lemma ToIntOrNullDecimal(n: nat)
    ensures n <= IntMax ==> ToIntOrNull(Decimal(n)) == Some(n)
    ensures n <= IntMax ==> ToIntOrNull("+" + Decimal(n)) == Some(n)
    ensures 0 < n <= -IntMin ==> ToIntOrNull("-" + Decimal(n)) == Some(-(n as int))
  {
    DecimalValue(n);
    var d := Decimal(n);
    assert ("+" + d)[1..] == d && ("-" + d)[1..] == d;
  }

  /*********************************************************************
   * The per-byte mask
   *********************************************************************/

  /** The mask `inCidr` applies to one byte when `bits` prefix bits are
      left: all ones from 8 on, zero at 0 and below, and otherwise
      `(0xFF shl (8 - bits)) and 0xFF`. The shift is done on eight bits,
      which drops exactly what `and 0xFF` drops. */
  function Mask(bits: int): Octet
  {
    if bits >= 8 then 0xFF else if bits <= 0 then 0 else 0xFF << (8 - bits)
  }

  /** The single-bit mask of bit j, counting from the most significant. */
  function BitMask(j: int): Octet
    requires 0 <= j < 8
  {
    match j
    case 0 => 0x80 case 1 => 0x40 case 2 => 0x20 case 3 => 0x10
    case 4 => 0x08 case 5 => 0x04 case 6 => 0x02 case _ => 0x01
  }

  /** Bit j of a byte, counting from the most significant. */
  predicate Bit(b: Octet, j: int)
    requires 0 <= j < 8
  {
    b & BitMask(j) != 0
  }

  /** The first k bits of two bytes agree. */
  predicate TopAgree(b: Octet, c: Octet, k: int)
    requires 0 <= k <= 8
  {
    forall j | 0 <= j < k :: Bit(b, j) == Bit(c, j)
  }

  /** `(b and mask) == (c and mask)`. */
  predicate MaskedEq(b: Octet, c: Octet, m: Octet)
  {
    b & m == c & m
  }

  /** The mask for `bits` has exactly its top min(max(bits, 0), 8) bits set. */
  lemma MaskTopBits(bits: int, j: int)
    requires 0 <= j < 8
    ensures Bit(Mask(bits), j) <==> j < bits
  {
    if bits <= 0 || bits >= 8 {
    } else if bits == 1 { assert Mask(bits) == 0x80;
    } else if bits == 2 { assert Mask(bits) == 0xC0;
    } else if bits == 3 { assert Mask(bits) == 0xE0;
    } else if bits == 4 { assert Mask(bits) == 0xF0;
    } else if bits == 5 { assert Mask(bits) == 0xF8;
    } else if bits == 6 { assert Mask(bits) == 0xFC;
    } else { assert Mask(bits) == 0xFE; }
  }

  lemma MaskGrows(k: int)
    requires 0 < k <= 8
    ensures Mask(k) == Mask(k - 1) | BitMask(k - 1)
  {
    if k == 1 {} else if k == 2 {} else if k == 3 {} else if k == 4 {}
    else if k == 5 {} else if k == 6 {} else if k == 7 {} else {}
  }

  lemma MaskedEqXor(b: Octet, c: Octet, m: Octet)
    ensures MaskedEq(b, c, m) <==> (b ^ c) & m == 0
  {
  }

  lemma XorUnion(x: Octet, m1: Octet, m2: Octet)
    ensures x & (m1 | m2) == 0 <==> x & m1 == 0 && x & m2 == 0
  {
  }

  lemma MaskedEqUnion(b: Octet, c: Octet, m1: Octet, m2: Octet)
    ensures MaskedEq(b, c, m1 | m2) <==> MaskedEq(b, c, m1) && MaskedEq(b, c, m2)
  {
    MaskedEqXor(b, c, m1 | m2);
    MaskedEqXor(b, c, m1);
    MaskedEqXor(b, c, m2);
    XorUnion(b ^ c, m1, m2);
  }

  lemma OneBitXor(b: Octet, c: Octet, m: Octet)
    requires m != 0 && m & (m - 1) == 0
    ensures ((b & m != 0) == (c & m != 0)) <==> (b ^ c) & m == 0
  {
  }

  lemma MaskedEqBit(b: Octet, c: Octet, j: int)
    requires 0 <= j < 8
    ensures MaskedEq(b, c, BitMask(j)) <==> Bit(b, j) == Bit(c, j)
  {
    var m := BitMask(j);
    assert m != 0 && m & (m - 1) == 0 by {
      if j == 0 {} else if j == 1 {} else if j == 2 {} else if j == 3 {}
      else if j == 4 {} else if j == 5 {} else if j == 6 {} else {}
    }
    MaskedEqXor(b, c, m);
    OneBitXor(b, c, m);
  }

  lemma MaskStep(b: Octet, c: Octet, k: int)
    requires 0 < k <= 8
    ensures MaskedEq(b, c, Mask(k)) <==> MaskedEq(b, c, Mask(k - 1)) && Bit(b, k - 1) == Bit(c, k - 1)
  {
    MaskGrows(k);
    MaskedEqUnion(b, c, Mask(k - 1), BitMask(k - 1));
    MaskedEqBit(b, c, k - 1);
  }

  lemma TopAgreeStep(b: Octet, c: Octet, k: int)
    requires 0 < k <= 8
    ensures TopAgree(b, c, k) <==> TopAgree(b, c, k - 1) && Bit(b, k - 1) == Bit(c, k - 1)
  {
  }

  /** Two bytes agree under the mask for k bits iff their first k bits
      agree. */
  lemma {:induction false} MaskedEqTopAgree(b: Octet, c: Octet, k: int)
    requires 0 <= k <= 8
    ensures MaskedEq(b, c, Mask(k)) <==> TopAgree(b, c, k)
  {
    if k > 0 {
      MaskedEqTopAgree(b, c, k - 1);
      MaskStep(b, c, k);
      TopAgreeStep(b, c, k);
    }
  }

  lemma FullMaskEq(b: Octet, c: Octet)
    ensures MaskedEq(b, c, 0xFF) <==> b == c
  {
  }

  /*********************************************************************
   * Bits of an address
   *********************************************************************/

  /** Bit j of an address, counting from the most significant bit of its
      first byte. */
  predicate BitAt(s: seq<Octet>, j: int)
    requires 0 <= j < 8 * |s|
  {
    Bit(s[j / 8], j % 8)
  }

  /** Bits lo up to hi of two addresses agree. */
  predicate BitsAgree(a: seq<Octet>, b: seq<Octet>, lo: int, hi: int)
    requires 0 <= lo <= hi && hi <= 8 * |a| && hi <= 8 * |b|
  {
    forall j | lo <= j < hi :: BitAt(a, j) == BitAt(b, j)
  }

  /** The first p bits of two addresses agree: the block base/p contains
      target. */
  predicate PrefixAgree(base: seq<Octet>, target: seq<Octet>, p: int)
    requires 0 <= p <= 8 * |base| && p <= 8 * |target|
  {
    BitsAgree(base, target, 0, p)
  }

  lemma ByteIndex(i: int, t: int)
    requires 0 <= i && 0 <= t < 8
    ensures (8 * i + t) / 8 == i && (8 * i + t) % 8 == t
  {
  }

  lemma BitAtByte(a: seq<Octet>, i: int, t: int)
    requires 0 <= i < |a| && 0 <= t < 8
    ensures BitAt(a, 8 * i + t) == Bit(a[i], t)
  {
    ByteIndex(i, t);
  }

  /** The bits of byte i are bits 8i up to 8i+8 of the address. */
  lemma BitsOfByte(a: seq<Octet>, b: seq<Octet>, i: int, k: int)
    requires 0 <= i < |a| && i < |b| && 0 <= k <= 8
    ensures BitsAgree(a, b, 8 * i, 8 * i + k) <==> TopAgree(a[i], b[i], k)
  {
    if BitsAgree(a, b, 8 * i, 8 * i + k) {
      forall t | 0 <= t < k ensures Bit(a[i], t) == Bit(b[i], t) {
        BitAtByte(a, i, t);
        BitAtByte(b, i, t);
        assert BitAt(a, 8 * i + t) == BitAt(b, 8 * i + t);
      }
    }
    if TopAgree(a[i], b[i], k) {
      forall j | 8 * i <= j < 8 * i + k ensures BitAt(a, j) == BitAt(b, j) {
        var t := j - 8 * i;
        BitAtByte(a, i, t);
        BitAtByte(b, i, t);
      }
    }
  }

  lemma BitsAgreeSplit(a: seq<Octet>, b: seq<Octet>, lo: int, mid: int, hi: int)
    requires 0 <= lo <= mid <= hi && hi <= 8 * |a| && hi <= 8 * |b|
    ensures BitsAgree(a, b, lo, hi) <==> BitsAgree(a, b, lo, mid) && BitsAgree(a, b, mid, hi)
  {
  }

  /** All bits of two equally long addresses agree iff the addresses are
      equal. */
  lemma {:induction false} AllBitsAgree(a: seq<Octet>, b: seq<Octet>, n: int)
    requires |a| == |b| && 0 <= n <= |a|
    ensures BitsAgree(a, b, 0, 8 * n) <==> a[..n] == b[..n]
  {
    if n > 0 {
      AllBitsAgree(a, b, n - 1);
      BitsAgreeSplit(a, b, 0, 8 * (n - 1), 8 * n);
      BitsOfByte(a, b, n - 1, 8);
      MaskedEqTopAgree(a[n - 1], b[n - 1], 8);
      FullMaskEq(a[n - 1], b[n - 1]);
      assert a[..n] == a[..n - 1] + [a[n - 1]];
      assert b[..n] == b[..n - 1] + [b[n - 1]];
    }
  }

  /*********************************************************************
   * The CIDR scan of inCidr
   *********************************************************************/

  /** What the loop of `inCidr` answers from byte i on, with `bits` prefix
      bits left: reading past the end of target raises, a masked mismatch
      answers false, and the scan stops with true once the prefix is used
      up or base has no more bytes. `bits` is an Int, so `bits -= 8`
      wraps around below IntMin. */
  function Scan(base: seq<Octet>, target: seq<Octet>, i: nat, bits: int): Res<bool>
    decreases |base| - i
  {
    if i >= |base| then Ok(true)
    else if i >= |target| then Raised(IndexOutOfBounds)
    else if !MaskedEq(base[i], target[i], Mask(bits)) then Ok(false)
    else
      var left := Wrap32(bits - 8);
      if left <= 0 then Ok(true) else Scan(base, target, i + 1, left)
  }

  function Min(x: int, y: int): int
  {
    if x <= y then x else y
  }

  /** For equally long addresses, the scan from byte i answers whether bits
      8i up to the prefix (capped at the address length) agree. The prefix
      is an Int, so counting down from it never wraps. */
  lemma {:induction false} ScanAgrees(base: seq<Octet>, target: seq<Octet>, i: nat, prefix: int)
    requires |base| == |target| && i <= |base|
    requires 8 * i <= prefix && (i == 0 || 8 * i < prefix)
    requires prefix - 8 * i - 8 <= IntMax
    ensures Scan(base, target, i, prefix - 8 * i)
         == Ok(BitsAgree(base, target, 8 * i, Min(prefix, 8 * |base|)))
    decreases |base| - i
  {
    if i < |base| {
      var bits := prefix - 8 * i;
      var k := Min(bits, 8);
      var top := Min(prefix, 8 * |base|);
      assert Mask(bits) == Mask(k);
      MaskedEqTopAgree(base[i], target[i], k);
      BitsOfByte(base, target, i, k);
      BitsAgreeSplit(base, target, 8 * i, 8 * i + k, top);
      assert Wrap32(bits - 8) == bits - 8;
      if MaskedEq(base[i], target[i], Mask(bits)) && bits - 8 > 0 {
        ScanAgrees(base, target, i + 1, prefix);
        assert prefix - 8 * i - 8 == prefix - 8 * (i + 1);
      }
    }
  }

  /** For equally long addresses and 0 <= prefix <= 8 * length, the scan
      answers whether the first `prefix` bits of base and target agree. */
  lemma PrefixMatch(base: seq<Octet>, target: seq<Octet>, prefix: int)
    requires |base| == |target| && 0 <= prefix <= 8 * |base| && prefix <= IntMax
    ensures Scan(base, target, 0, prefix) == Ok(PrefixAgree(base, target, prefix))
  {
    ScanAgrees(base, target, 0, prefix);
  }

  /** A prefix from IntMin + 8 up to zero matches every address: the mask
      of the first byte is empty and no bits are left after it. */
  lemma NonPositivePrefix(base: seq<Octet>, target: seq<Octet>, prefix: int)
    requires IntMin + 8 <= prefix <= 0 && (|base| == 0 || |target| >= 1)
    ensures Scan(base, target, 0, prefix) == Ok(true)
  {
  }

  /** A prefix from IntMin to IntMin + 7 compares the first byte under an
      empty mask, after which `bits -= 8` wraps to nearly IntMax: every
      later byte is then compared in full. */
  lemma WrappedPrefix(base: seq<Octet>, target: seq<Octet>, prefix: int)
    requires IntMin <= prefix < IntMin + 8
    requires |base| == |target| >= 1 && 8 * |base| <= IntMax
    ensures Scan(base, target, 0, prefix) == Ok(BitsAgree(base, target, 8, 8 * |base|))
  {
    var left := prefix - 8 + 0x1_0000_0000;
    assert Wrap32(prefix - 8) == left;
    assert MaskedEq(base[0], target[0], Mask(prefix));
    ScanAgrees(base, target, 1, left + 8);
  }

  /** The rule 10.0.0.0/-2147483648 does not match 99.1.0.0: the first
      bytes are ignored and the second bytes differ. */
  lemma WrappedPrefixExample(ip: string, rule: string, resolve: Resolver)
    requires ip == "99.1.0.0" && rule == "10.0.0.0/-2147483648"
    requires resolve("10.0.0.0") == Some([10, 0, 0, 0]) && resolve(ip) == Some([99, 1, 0, 0])
    ensures Match(ip, rule, resolve) == Ok(false)
  {
    RuleText();
    IntMinText();
    WrappedScanExample();
    CidrSteps(ip, "10.0.0.0", "-2147483648", resolve);
  }

  lemma RuleText()
    ensures '/' !in "10.0.0.0" && '/' !in "-2147483648"
    ensures "10.0.0.0" + "/" + "-2147483648" == "10.0.0.0/-2147483648"
  {
  }

  /** A rule `a/p` with one '/' resolves a, then the client, then reads p
      as an Int before it scans. */
  lemma CidrSteps(ip: string, a: string, p: string, resolve: Resolver)
    requires '/' !in a && '/' !in p
    requires resolve(a).Some? && resolve(ip).Some? && ToIntOrNull(p).Some?
    ensures Match(ip, a + "/" + p, resolve) == Scan(resolve(a).value, resolve(ip).value, 0, ToIntOrNull(p).value)
  {
    SplitAtSeparator(a, p, '/');
    assert a + "/" + p == a + ['/'] + p;
    assert '/' in a + "/" + p by { assert (a + "/" + p)[|a|] == '/'; }
  }

  lemma DigitsSnoc(s: string, c: char)
    requires AllDigits(s) && IsDigit(c)
    ensures AllDigits(s + [c]) && DigitsValue(s + [c]) == DigitsValue(s) * 10 + (c as int - '0' as int)
  {
    assert (s + [c])[..|s|] == s;
  }

  lemma IntMinText()
    ensures ToIntOrNull("-2147483648") == Some(IntMin)
  {
    IntMinDigits();
    assert "-2147483648"[1..] == "2147483648";
  }

  lemma IntMinDigits()
    ensures AllDigits("2147483648") && DigitsValue("2147483648") == 2147483648
  {
    LeadingDigits();
    DigitsSnoc("21474", '8'); assert "21474" + ['8'] == "214748";
    DigitsSnoc("214748", '3'); assert "214748" + ['3'] == "2147483";
    DigitsSnoc("2147483", '6'); assert "2147483" + ['6'] == "21474836";
    DigitsSnoc("21474836", '4'); assert "21474836" + ['4'] == "214748364";
    DigitsSnoc("214748364", '8'); assert "214748364" + ['8'] == "2147483648";
  }

  lemma LeadingDigits()
    ensures AllDigits("21474") && DigitsValue("21474") == 21474
  {
    assert DigitsValue("2") == 2 by { assert "2"[..0] == ""; }
    DigitsSnoc("2", '1'); assert "2" + ['1'] == "21";
    DigitsSnoc("21", '4'); assert "21" + ['4'] == "214";
    DigitsSnoc("214", '7'); assert "214" + ['7'] == "2147";
    DigitsSnoc("2147", '4'); assert "2147" + ['4'] == "21474";
  }

  lemma WrappedScanExample()
    ensures Scan([10, 0, 0, 0], [99, 1, 0, 0], 0, IntMin) == Ok(false)
  {
    assert Mask(IntMin) == 0;
    assert Wrap32(IntMin - 8) == IntMax - 7;
    assert Mask(IntMax - 7) == 0xFF;
    assert !MaskedEq(0, 1, 0xFF);
  }

  /** A prefix covering the whole address asks for byte-for-byte equality. */
  lemma FullPrefix(base: seq<Octet>, target: seq<Octet>, prefix: int)
    requires |base| == |target| && 8 * |base| <= prefix <= IntMax
    ensures Scan(base, target, 0, prefix) == Ok(base == target)
  {
    ScanAgrees(base, target, 0, prefix);
    AllBitsAgree(base, target, |base|);
    assert base[..|base|] == base && target[..|target|] == target;
  }

  /** Shortening the prefix never turns a match into a mismatch, as long as
      the shorter prefix stays clear of the wrap-around below IntMin + 8. */
  lemma PrefixMonotone(base: seq<Octet>, target: seq<Octet>, p: int, q: int)
    requires |base| == |target| && IntMin + 8 <= q <= p <= IntMax
    requires Scan(base, target, 0, p) == Ok(true)
    ensures Scan(base, target, 0, q) == Ok(true)
  {
    if q > 0 {
      ScanAgrees(base, target, 0, p);
      ScanAgrees(base, target, 0, q);
      BitsAgreeSplit(base, target, 0, Min(q, 8 * |base|), Min(p, 8 * |base|));
    }
  }

  /** When the target is shorter than the base (an IPv4 client against an
      IPv6 rule) and agrees with all of the base it has, a prefix longer
      than the target reads past its end: the scan raises. */
  lemma {:induction false} ShortTargetRaises(base: seq<Octet>, target: seq<Octet>, i: nat, prefix: int)
    requires |target| < |base| && base[..|target|] == target
    requires i <= |target| && 8 * |target| < prefix <= IntMax
    ensures Scan(base, target, i, prefix - 8 * i) == Raised(IndexOutOfBounds)
    decreases |target| - i
  {
    if i < |target| {
      assert base[i] == base[..|target|][i];
      assert Mask(prefix - 8 * i) == 0xFF;
      assert Wrap32(prefix - 8 * i - 8) == prefix - 8 * i - 8;
      ShortTargetRaises(base, target, i + 1, prefix);
      assert prefix - 8 * i - 8 == prefix - 8 * (i + 1);
    }
  }

  /*********************************************************************
   * match, anyMatch, inCidr
   *********************************************************************/

  /** What `inCidr(ip, cidr)` returns or raises: a rule that does not split
      into two pieces, or whose prefix is not an Int, answers false; the
      rule's address is resolved before the client's and both before the
      prefix is read. */
  function CidrTest(ip: string, cidr: string, resolve: Resolver): Res<bool>
  {
    var parts := Split(cidr, '/');
    if |parts| != 2 then Ok(false)
    else
      match resolve(parts[0])
      case None => Raised(UnknownHost)
      case Some(base) =>
        match resolve(ip)
        case None => Raised(UnknownHost)
        case Some(target) =>
          match ToIntOrNull(parts[1])
          case None => Ok(false)
          case Some(prefix) => Scan(base, target, 0, prefix)
  }

  /** `inCidr`: split the rule, resolve both addresses, parse the prefix,
      then walk the bytes of the base with `bits` counting down by eight. */
  method InCidr(ip: string, cidr: string, resolve: Resolver) returns (r: Res<bool>)
    ensures r == CidrTest(ip, cidr, resolve)
  {
    var parts := Split(cidr, '/');
    if |parts| != 2 { return Ok(false); }
    var base := resolve(parts[0]);
    if base.None? { return Raised(UnknownHost); }
    var target := resolve(ip);
    if target.None? { return Raised(UnknownHost); }
    var prefix := ToIntOrNull(parts[1]);
    if prefix.None? { return Ok(false); }
    r := ScanBytes(base.value, target.value, prefix.value);
  }

  /** The loop of `inCidr`: compare base and target byte by byte under
      the mask for the bits left, with `bits -= 8` on a 32-bit Int,
      stopping once no bits are left. */
  method ScanBytes(b: seq<Octet>, t: seq<Octet>, prefix: int) returns (r: Res<bool>)
    ensures r == Scan(b, t, 0, prefix)
  {
    var bits := prefix;
    var i := 0;
    while i < |b|
      invariant 0 <= i <= |b|
      invariant Scan(b, t, 0, prefix) == Scan(b, t, i, bits)
    {
      if i >= |t| { return Raised(IndexOutOfBounds); }
      var mask := Mask(bits);
      if !MaskedEq(b[i], t[i], mask) { return Ok(false); }
      ScanStep(b, t, i, bits);
      bits := Wrap32(bits - 8);
      if bits <= 0 { break; }
      i := i + 1;
    }
    return Ok(true);
  }

  /** One more byte agrees under its mask: the walk stops with true when
      the wrapped count of bits left is not positive, and otherwise goes on
      with the next byte. */
  lemma ScanStep(b: seq<Octet>, t: seq<Octet>, i: nat, bits: int)
    requires i < |b| && i < |t| && MaskedEq(b[i], t[i], Mask(bits))
    ensures Wrap32(bits - 8) <= 0 ==> Scan(b, t, i, bits) == Ok(true)
    ensures Wrap32(bits - 8) > 0 ==> Scan(b, t, i, bits) == Scan(b, t, i + 1, Wrap32(bits - 8))
  {
  }

  /** `match(ip, cidrOrIp)`: the CIDR test for a rule containing '/', exact
      text equality otherwise. */
  function Match(ip: string, rule: string, resolve: Resolver): Res<bool>
  {
    if '/' in rule then CidrTest(ip, rule, resolve) else Ok(ip == rule)
  }

  /** `list.any { match(ip, it) }`: rules are tried in order, the first
      match answers true, and an exception escapes from the rule that
      raised it. */
  function AnyOf(ip: string, rules: seq<string>, resolve: Resolver): Res<bool>
    decreases |rules|
  {
    if rules == [] then Ok(false)
    else
      match Match(ip, rules[0], resolve)
      case Raised(f) => Raised(f)
      case Ok(true) => Ok(true)
      case Ok(false) => AnyOf(ip, rules[1..], resolve)
  }

  /** `anyMatch(ip, list)`: false for a null or empty list. */
  function AnyMatch(ip: string, list: Option<seq<string>>, resolve: Resolver): Res<bool>
  {
    if list.None? || |list.value| == 0 then Ok(false) else AnyOf(ip, list.value, resolve)
  }

  /** A rule without '/' matches exactly the identical address text and
      never raises. */
  lemma ExactRule(ip: string, rule: string, resolve: Resolver)
    requires '/' !in rule
    ensures Match(ip, rule, resolve) == Ok(ip == rule)
  {
  }

  /** A rule with more than one '/' never matches. */
  lemma TooManySlashes(ip: string, rule: string, resolve: Resolver)
    requires multiset(rule)['/'] >= 2
    ensures Match(ip, rule, resolve) == Ok(false)
  {
    assert '/' in multiset(rule);
  }

  /** A well-formed rule `a/p`, with p written in decimal, matches exactly
      the addresses whose first p bits agree with a's. */
  lemma CidrRule(ip: string, a: string, p: nat, resolve: Resolver, base: seq<Octet>, target: seq<Octet>)
    requires '/' !in a
    requires resolve(a) == Some(base) && resolve(ip) == Some(target)
    requires |base| == |target| && (|base| == 4 || |base| == 16) && p <= 8 * |base|
    ensures Match(ip, a + "/" + Decimal(p), resolve) == Ok(PrefixAgree(base, target, p))
  {
    var d := Decimal(p);
    assert forall i | 0 <= i < |d| :: d[i] != '/' by {
      assert !IsDigit('/');
    }
    SplitAtSeparator(a, d, '/');
    assert a + "/" + d == a + ['/'] + d;
    assert '/' in a + "/" + d by { assert (a + "/" + d)[|a|] == '/'; }
    ToIntOrNullDecimal(p);
    PrefixMatch(base, target, p);
  }

  /** When no rule raises, the list matches iff some rule matches. */
  lemma {:induction false} AnyOfSome(ip: string, rules: seq<string>, resolve: Resolver)
    requires forall i | 0 <= i < |rules| :: Match(ip, rules[i], resolve).Ok?
    ensures AnyOf(ip, rules, resolve)
         == Ok(exists i | 0 <= i < |rules| :: Match(ip, rules[i], resolve) == Ok(true))
  {
    if rules != [] {
      AnyOfSome(ip, rules[1..], resolve);
      if Match(ip, rules[0], resolve) == Ok(false) {
        if exists i | 0 <= i < |rules| :: Match(ip, rules[i], resolve) == Ok(true) {
          var i :| 0 <= i < |rules| && Match(ip, rules[i], resolve) == Ok(true);
          assert rules[1..][i - 1] == rules[i];
        }
      }
    }
  }

  /** `anyMatch` is false for a missing or empty list and, when no rule
      raises, true iff some rule of the list matches. */
  lemma AnyMatchIff(ip: string, list: Option<seq<string>>, resolve: Resolver)
    requires list.Some? ==> forall i | 0 <= i < |list.value| :: Match(ip, list.value[i], resolve).Ok?
    ensures AnyMatch(ip, list, resolve)
         == Ok(list.Some? && exists i | 0 <= i < |list.value| :: Match(ip, list.value[i], resolve) == Ok(true))
  {
    if list.Some? {
      AnyOfSome(ip, list.value, resolve);
    }
  }

  /** A true answer always comes from a rule that matches, whatever the
      later rules would have done. */
  lemma {:induction false} AnyOfTrue(ip: string, rules: seq<string>, resolve: Resolver)
    requires AnyOf(ip, rules, resolve) == Ok(true)
    ensures exists i | 0 <= i < |rules| :: Match(ip, rules[i], resolve) == Ok(true)
  {
    if Match(ip, rules[0], resolve) != Ok(true) {
      AnyOfTrue(ip, rules[1..], resolve);
      var i :| 0 <= i < |rules[1..]| && Match(ip, rules[1..][i], resolve) == Ok(true);
      assert rules[1..][i] == rules[i + 1];
    }
  }
}
