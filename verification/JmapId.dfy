/** JMAP ids (types/src/id.rs): a 64-bit number written in base 32, by a loop that shifts the
    number out of a word with a stop bit behind it. */
module JmapId {
  import opened Wrappers
  import opened Modular

  const TWO63: nat := 0x8000_0000_0000_0000
  const TWO64: nat := 0x1_0000_0000_0000_0000
  const TWO59: nat := 0x0800_0000_0000_0000
  const STOP_BIT: nat := 0x1000_0000_0000_0000
  const MAX_LENGTH: nat := 13

  type U64 = x: nat | x < 0x1_0000_0000_0000_0000

  /** `BASE32_ALPHABET` (utils/src/codec/base32_custom.rs): a-z, then 7, 9, 2, 0, 1, 3. */
  function Symbol(rank: nat): (ch: nat)
    requires rank < 32
    ensures Inverse(ch) == Some(rank)
  {
    if rank < 26 then 97 + rank
    else if rank == 26 then 55
    else if rank == 27 then 57
    else if rank == 28 then 50
    else if rank == 29 then 48
    else if rank == 30 then 49
    else 51
  }

  /** `BASE32_INVERSE`, which also knows the upper-case letters from K on. */
  function Inverse(ch: nat): (rank: Option<nat>)
    ensures rank.Some? ==> rank.value < 32
  {
    if 97 <= ch <= 122 then Some(ch - 97)
    else if 75 <= ch <= 90 then Some(ch - 75 + 10)
    else if ch == 55 then Some(26)
    else if ch == 57 then Some(27)
    else if ch == 50 then Some(28)
    else if ch == 48 then Some(29)
    else if ch == 49 then Some(30)
    else if ch == 51 then Some(31)
    else None
  }

  // ----------------------------------------------------------- base 32, plainly

  predicate Ranks(digits: seq<nat>) {
    forall i :: 0 <= i < |digits| ==> digits[i] < 32
  }

  /** The digits of a number, most significant first; zero has one digit. */
  function Base32(n: nat): (digits: seq<nat>)
    ensures Ranks(digits) && digits != []
  {
    if n < 32 then [n] else Base32(n / 32) + [n % 32]
  }

  function Number(digits: seq<nat>): nat {
    if digits == [] then 0 else 32 * Number(digits[..|digits| - 1]) + digits[|digits| - 1]
  }

  function Text(digits: seq<nat>): (text: seq<nat>)
    requires Ranks(digits)
    ensures |text| == |digits| && forall i :: 0 <= i < |digits| ==> text[i] == Symbol(digits[i])
  {
    if digits == [] then [] else [Symbol(digits[0])] + Text(digits[1..])
  }

  lemma {:induction false} NumberOfDigits(n: nat)
    ensures Number(Base32(n)) == n
  {
    if n < 32 {
      assert Base32(n)[..0] == [];
    } else {
      NumberOfDigits(n / 32);
      assert Base32(n)[..|Base32(n)| - 1] == Base32(n / 32);
    }
  }

  function Pow32(k: nat): (p: nat)
    ensures p > 0
  {
    if k == 0 then 1 else 32 * Pow32(k - 1)
  }

  lemma Pow32Facts()
    ensures Pow32(11) == 0x80_0000_0000_0000 && Pow32(12) == STOP_BIT
  {
    assert Pow32(4) == 0x10_0000;
    assert Pow32(8) == 0x100_0000_0000;
  }

  lemma {:induction false} Pow32Sum(a: nat, b: nat)
    ensures Pow32(a) * Pow32(b) == Pow32(a + b)
  {
    if a > 0 {
      Pow32Sum(a - 1, b);
      Assoc(32, Pow32(a - 1), Pow32(b));
    }
  }

  lemma {:induction false} Pow32Grows(a: nat, b: nat)
    requires a <= b
    ensures Pow32(a) <= Pow32(b)
    decreases b - a
  {
    if a < b {
      Pow32Grows(a, b - 1);
    }
  }

  /** A number of `k` digits lies between two powers. */
  lemma {:induction false} DigitCount(n: nat)
    ensures n < Pow32(|Base32(n)|) && (n > 0 ==> Pow32(|Base32(n)| - 1) <= n)
  {
    if n < 32 {
      assert Pow32(1) == 32 && Pow32(0) == 1;
    } else {
      DigitCount(n / 32);
    }
  }

  lemma DigitCountIs(n: nat, k: nat)
    requires n > 0 && k >= 1 && n < Pow32(k) && Pow32(k - 1) <= n
    ensures |Base32(n)| == k
  {
    DigitCount(n);
    var l := |Base32(n)|;
    if l < k {
      Pow32Grows(l, k - 1);
    } else if l > k {
      Pow32Grows(k, l - 1);
    }
  }

  /** The first digit counts the highest power; the others stay below it. */
  lemma {:induction false} NumberFront(digits: seq<nat>)
    requires digits != [] && Ranks(digits)
    ensures Number(digits[1..]) < Pow32(|digits| - 1)
    ensures Number(digits) == digits[0] * Pow32(|digits| - 1) + Number(digits[1..])
    decreases |digits|
  {
    var k := |digits| - 1;
    if k == 0 {
      assert digits[..0] == [] && digits[1..] == [];
    } else {
      var init := digits[..k];
      NumberFront(init);
      assert init[1..] == digits[1..][..k - 1];
      FrontStep(digits[0], Pow32(k - 1), Number(init[1..]), digits[k]);
    }
  }

  lemma FrontStep(d: nat, p: nat, low: nat, last: nat)
    requires low < p && last < 32
    ensures 32 * (d * p + low) + last == d * (32 * p) + (32 * low + last) && 32 * low + last < 32 * p
  {
    Assoc(d, 32, p);
  }

  // -------------------------------------------------------- the word's shifts

  function Pow2(k: nat): (p: nat)
    ensures p > 0
  {
    if k == 0 then 1 else 2 * Pow2(k - 1)
  }

  function Shl(n: U64, k: nat): U64 { n * Pow2(k) % TWO64 }

  function LeadingZeros(n: U64): nat
    decreases TWO64 - n
  {
    if n == 0 then 64 else if n >= TWO63 then 0 else 1 + LeadingZeros(2 * n)
  }

  lemma {:induction false} LeadingZerosBound(n: U64)
    requires n > 0
    ensures TWO63 <= n * Pow2(LeadingZeros(n)) < TWO64
    decreases TWO64 - n
  {
    if n < TWO63 {
      LeadingZerosBound(2 * n);
      Assoc(n, 2, Pow2(LeadingZeros(2 * n)));
    }
  }

  lemma {:induction false} Pow2Of5(j: nat)
    ensures Pow2(5 * j) == Pow32(j)
  {
    if j > 0 {
      Pow2Of5(j - 1);
      Pow2Sum(5, 5 * (j - 1));
      assert Pow2(5) == 32;
    }
  }

  lemma {:induction false} Pow2Sum(a: nat, b: nat)
    ensures Pow2(a + b) == Pow2(a) * Pow2(b)
  {
    if a > 0 {
      Pow2Sum(a - 1, b);
      Assoc(2, Pow2(a - 1), Pow2(b));
    }
  }

  /** The value `r`, the stop bit, and the zeros that `q` counts. */
  ghost function Word(r: nat, q: nat): nat { (16 * r + 1) * q }

  /** A word that holds the digits still to be written, the stop bit behind them, and zeros. */
  ghost predicate Holds(n: nat, rest: seq<nat>) {
    Ranks(rest) && |rest| <= 12 && n == Word(Number(rest), Pow32(12 - |rest|))
  }

  lemma WordParts(d: nat, p: nat, q: nat, low: nat)
    requires low < p && p * q == 0x80_0000_0000_0000
    ensures Word(d * p + low, q) == d * TWO59 + Word(low, q)
    ensures Word(low, q) < TWO59
  {
    Assoc(d, p, q);
    assert d * p * q == d * 0x80_0000_0000_0000;
    Distrib(16 * (d * p), 16 * low + 1, q);
    Assoc(16, d * p, q);
    Below(16 * low + 1, 16 * p, q, 0);
    Assoc(16, p, q);
  }

  lemma WordShift(r: nat, q: nat)
    ensures Word(r, q) * 32 == Word(r, 32 * q)
  {
    Assoc(16 * r + 1, q, 32);
  }

  lemma HoldsParts(n: nat, rest: seq<nat>)
    requires Holds(n, rest) && rest != []
    ensures var l := Word(Number(rest[1..]), Pow32(12 - |rest|));
      rest[0] < 32 && n == rest[0] * TWO59 + l && l < TWO59
  {
    hide Pow32, Number, Word;
    var k := |rest|;
    Pow32Facts();
    Pow32Sum(k - 1, 12 - k);
    NumberFront(rest);
    WordParts(rest[0], Pow32(k - 1), Pow32(12 - k), Number(rest[1..]));
  }

  lemma Pow32Step(k: nat)
    ensures Pow32(k + 1) == 32 * Pow32(k)
  {
  }

  lemma HoldsNext(rest: seq<nat>)
    requires Ranks(rest) && 0 < |rest| <= 12
    ensures Holds(Word(Number(rest[1..]), Pow32(12 - |rest|)) * 32, rest[1..])
  {
    hide Pow32, Number, Word;
    var tail := rest[1..];
    Pow32Step(12 - |rest|);
    WordShift(Number(tail), Pow32(12 - |rest|));
  }

  lemma TopFive(n: nat, d: nat, l: nat)
    requires n == d * TWO59 + l && l < TWO59 && d < 32
    ensures n < TWO64 && n / TWO59 == d && n * 32 % TWO64 == l * 32
  {
    ModIs(n, TWO59, d, l);
    ModIs(n * 32, TWO64, d, l * 32);
  }

  lemma HoldsBound(n: nat, rest: seq<nat>)
    requires Holds(n, rest)
    ensures Ranks(rest) && |rest| <= 12
  {
  }

  /** The top five bits are the next digit, and shifting them out leaves the rest. */
  lemma NextDigit(n: nat, rest: seq<nat>)
    requires Holds(n, rest) && rest != []
    ensures n < TWO64 && n / TWO59 == rest[0] && Holds(n * 32 % TWO64, rest[1..])
  {
    hide Pow32, Number, Holds, Word;
    HoldsBound(n, rest);
    HoldsParts(n, rest);
    HoldsNext(rest);
    TopFive(n, rest[0], Word(Number(rest[1..]), Pow32(12 - |rest|)));
  }

  /** The stop bit is not met early: an odd number times the remaining zeros is no power of 32. */
  lemma StopBitLast(n: nat, rest: seq<nat>)
    requires Holds(n, rest) && rest != []
    ensures n != STOP_BIT
  {
    var k := |rest|;
    var q := Pow32(12 - k);
    Pow32Facts();
    Pow32Sum(k, 12 - k);
    assert Pow32(k) == 2 * (16 * Pow32(k - 1));
    if n == STOP_BIT {
      Cancel(16 * Number(rest) + 1, Pow32(k), q);
    }
  }

  lemma Cancel(a: nat, b: nat, q: nat)
    requires q > 0 && a * q == b * q
    ensures a == b
  {
    var d: int := a - b;
    Distrib(q, a, b);
    Multiple(q, d);
  }

  lemma NothingLeft(n: nat, rest: seq<nat>)
    requires Holds(n, rest)
    ensures n == STOP_BIT <==> rest == []
  {
    Pow32Facts();
    if rest != [] {
      StopBitLast(n, rest);
    }
  }

  /** With four leading one bits or more: they are the first of 13 digits, the other 60 bits the next twelve. */
  lemma FullWord(id: U64)
    requires id >= STOP_BIT
    ensures var digits := Base32(id);
      |digits| == 13 && id / STOP_BIT == digits[0] && Holds(id * 16 % TWO64 + 1, digits[1..])
  {
    hide Base32, Number, Pow32, Word;
    var digits := Base32(id);
    Pow32Facts();
    Pow32Step(12);
    DigitCountIs(id, 13);
    NumberOfDigits(id);
    NumberFront(digits);
    var low := Number(digits[1..]);
    ModIs(id, STOP_BIT, digits[0], low);
    ModIs(id * 16, TWO64, digits[0], low * 16);
    WholeWord(low);
  }

  lemma WholeWord(r: nat)
    ensures Word(r, Pow32(0)) == 16 * r + 1
  {
  }

  /** With the four top bits clear: the leading zeros go in steps of five. */
  lemma TrimmedWord(id: U64)
    requires 0 < id < STOP_BIT
    ensures var n := id * 16 + 1;
      n < TWO64 && Holds(Shl(n, LeadingZeros(n) / 5 * 5), Base32(id))
  {
    var n: U64 := id * 16 + 1;
    var z := LeadingZeros(n);
    var j := z / 5;
    hide LeadingZeros, Pow2, Pow32, Number, Base32, Ranks;
    LeadingZerosBound(n);
    Pow2Sum(5 * j, z - 5 * j);
    Pow2Of5(j);
    StepsOfFive(n, j, z - 5 * j);
    TrimmedLength(id, j);
    NumberOfDigits(id);
  }

  lemma StepsOfFive(n: nat, j: nat, more: nat)
    requires more < 5 && TWO63 <= n * (Pow32(j) * Pow2(more)) < TWO64
    ensures TWO59 <= n * Pow32(j) < TWO64
  {
    var p := Pow32(j);
    Assoc(n, p, Pow2(more));
    assert Pow2(0) == 1 && Pow2(1) == 2 && Pow2(2) == 4 && Pow2(3) == 8 && Pow2(4) == 16;
    assert n * p * Pow2(more) >= TWO63;
  }

  lemma TrimmedLength(id: nat, j: nat)
    requires 0 < id < STOP_BIT && TWO59 <= (id * 16 + 1) * Pow32(j) < TWO64
    ensures j < 12 && |Base32(id)| == 12 - j
  {
    Pow32Facts();
    if j >= 12 {
      Pow32Grows(12, j);
      Below(16, id * 16 + 1, Pow32(j), 0);
      assert false;
    }
    var k := 12 - j;
    Pow32Sum(k, j);
    Pow32Sum(k - 1, j);
    if id >= Pow32(k) {
      Below(16 * Pow32(k), id * 16 + 1, Pow32(j), 0);
      Assoc(16, Pow32(k), Pow32(j));
    }
    if id < Pow32(k - 1) {
      Below(id * 16 + 1, 16 * Pow32(k - 1), Pow32(j), 0);
      Assoc(16, Pow32(k - 1), Pow32(j));
    }
    DigitCountIs(id, k);
  }

  lemma Zero()
    ensures Text(Base32(0)) == [Symbol(0)]
  {
  }

  lemma NothingWritten(rest: seq<nat>)
    ensures Text([]) == [] && [] + rest == rest
  {
  }

  lemma OneWritten(digits: seq<nat>)
    requires Ranks(digits) && digits != []
    ensures Text([digits[0]]) == [Symbol(digits[0])] && [digits[0]] + digits[1..] == digits
  {
  }

  /** `as_string`. */
  method AsString(id: U64) returns (text: seq<nat>)
    ensures text == Text(Base32(id))
  {
    hide Base32, LeadingZeros, Shl, Holds, Text, Symbol;
    if id == 0 {
      Zero();
      return [Symbol(0)];
    }
    var n: nat := id;
    var buf: seq<nat> := [];
    ghost var done, rest := [], Base32(id);
    if n / STOP_BIT == 0 {
      TrimmedWord(id);
      NothingWritten(rest);
      n := n * 16 + 1;
      n := Shl(n, LeadingZeros(n) / 5 * 5);
    } else {
      FullWord(id);
      OneWritten(rest);
      buf := buf + [Symbol(n / STOP_BIT)];
      n := n * 16 % TWO64 + 1;
      done, rest := [rest[0]], rest[1..];
    }
    while n != STOP_BIT
      invariant Holds(n, rest) && Ranks(done)
      invariant done + rest == Base32(id) && buf == Text(done)
      decreases |rest|
    {
      NothingLeft(n, rest);
      NextDigit(n, rest);
      TextSnoc(done, rest[0]);
      assert done + rest == done + [rest[0]] + rest[1..];
      buf := buf + [Symbol(n / TWO59)];
      n := n * 32 % TWO64;
      done, rest := done + [rest[0]], rest[1..];
    }
    NothingLeft(n, rest);
    assert done + [] == done;
    return buf;
  }

  lemma {:induction false} TextSnoc(digits: seq<nat>, d: nat)
    requires Ranks(digits) && d < 32
    ensures Ranks(digits + [d]) && Text(digits + [d]) == Text(digits) + [Symbol(d)]
  {
    var more := digits + [d];
    assert forall i :: 0 <= i < |more| ==> Text(more)[i] == (Text(digits) + [Symbol(d)])[i];
  }

  // ------------------------------------------------------------ reading back

  /** The ranks of the characters, if each has one. */
  function RanksOf(text: seq<nat>): Option<seq<nat>> {
    if text == [] then Some([])
    else
      match RanksOf(text[..|text| - 1])
      case None => None
      case Some(init) =>
        match Inverse(text[|text| - 1])
        case None => None
        case Some(rank) => Some(init + [rank])
  }

  lemma {:induction false} RanksOfPrefix(text: seq<nat>, i: nat)
    requires i <= |text| && RanksOf(text[..i]).None?
    ensures RanksOf(text).None?
    decreases |text|
  {
    if i < |text| {
      assert text[..|text| - 1][..i] == text[..i];
      RanksOfPrefix(text[..|text| - 1], i);
    } else {
      assert text[..i] == text;
    }
  }

  /** `from_str`; digits that leave the word are lost. */
  method FromStr(text: seq<nat>) returns (r: Option<U64>)
    ensures r == match RanksOf(text) case None => None case Some(digits) => Some(Number(digits) % TWO64)
  {
    var id: U64 := 0;
    assert RanksOf(text[..0]) == Some([]);
    for i := 0 to |text|
      invariant RanksOf(text[..i]).Some? && id == Number(RanksOf(text[..i]).value) % TWO64
    {
      assert text[..i + 1][..i] == text[..i];
      var rank := Inverse(text[i]);
      if rank.None? {
        RanksOfPrefix(text, i + 1);
        return None;
      }
      ghost var digits := RanksOf(text[..i]).value;
      assert (digits + [rank.value])[..|digits|] == digits;
      AddDigit(Number(digits), rank.value);
      id := id * 32 % TWO64 + rank.value;
    }
    assert text[..|text|] == text;
    return Some(id);
  }

  lemma AddDigit(n: nat, d: nat)
    requires d < 32
    ensures n % TWO64 * 32 % TWO64 + d == (32 * n + d) % TWO64
  {
    var q, r := n / TWO64, n % TWO64;
    var x, y := r * 32 / TWO64, r * 32 % TWO64;
    ModIs(y, 32, r - x * 0x800_0000_0000_0000, 0);
    ModIs(32 * n + d, TWO64, 32 * q + x, y + d);
  }

  // ---------------------------------------------------------- both directions

  /** Text that `as_string` could have written: no upper case, no needless leading `a`, and no more than 64 bits. */
  predicate Canonical(text: seq<nat>) {
    && text != []
    && (forall i :: 0 <= i < |text| ==> Inverse(text[i]).Some? && !Upper(text[i]))
    && (text[0] == Symbol(0) ==> |text| == 1)
    && |text| <= MAX_LENGTH
    && (|text| == MAX_LENGTH ==> Inverse(text[0]).value < 16)
  }

  predicate Upper(ch: nat) { 65 <= ch <= 90 }

  /** The digits of a number are the only ones for it that start with no zero. */
  lemma {:induction false} DigitsOfNumber(digits: seq<nat>)
    requires Ranks(digits) && digits != [] && (digits[0] == 0 ==> |digits| == 1)
    ensures Base32(Number(digits)) == digits && (|digits| > 1 ==> Number(digits) >= 1)
    decreases |digits|
  {
    var k := |digits| - 1;
    var init := digits[..k];
    assert digits == init + [digits[k]];
    if k == 0 {
      assert Number(init) == 0;
    } else {
      DigitsOfNumber(init);
      ModIs(Number(digits), 32, Number(init), digits[k]);
      assert Number(init) > 0;
    }
  }

  lemma RanksSnoc(text: seq<nat>, d: nat)
    requires RanksOf(text).Some? && d < 32
    ensures RanksOf(text + [Symbol(d)]) == Some(RanksOf(text).value + [d])
  {
    assert (text + [Symbol(d)])[..|text|] == text;
    assert Inverse(Symbol(d)) == Some(d);
    hide Inverse, Symbol;
  }

  lemma {:induction false} RanksOfText(digits: seq<nat>)
    requires Ranks(digits)
    ensures RanksOf(Text(digits)) == Some(digits)
    decreases |digits|
  {
    hide Inverse, Symbol;
    if digits != [] {
      var k := |digits| - 1;
      var init := digits[..k];
      RanksOfText(init);
      assert digits == init + [digits[k]];
      TextSnoc(init, digits[k]);
      RanksSnoc(Text(init), digits[k]);
    }
  }

  lemma {:induction false} TextOfRanks(text: seq<nat>)
    requires RanksOf(text).Some?
    ensures var digits := RanksOf(text).value;
      Ranks(digits) && |digits| == |text| && forall i :: 0 <= i < |text| ==> Inverse(text[i]) == Some(digits[i])
    decreases |text|
  {
    if text != [] {
      TextOfRanks(text[..|text| - 1]);
    }
  }

  /** What is written has 1 to 13 symbols, none of them upper case, and starts with `a` for 0 only. */
  lemma WrittenIsCanonical(id: U64)
    ensures Canonical(Text(Base32(id)))
    ensures Text(Base32(id))[0] == Symbol(0) <==> id == 0
  {
    hide Base32, Number, Pow32;
    var digits := Base32(id);
    DigitsFit(id);
    DigitCount(id);
    NumberOfDigits(id);
    NumberFront(digits);
    FirstDigit(digits[0], Pow32(|digits| - 1), Number(digits[1..]), id);
    NoOneDigitZero(id);
  }

  lemma NoOneDigitZero(id: nat)
    ensures id == 0 ==> |Base32(id)| == 1
  {
  }

  lemma DigitsFit(id: U64)
    ensures |Base32(id)| <= MAX_LENGTH && (|Base32(id)| == MAX_LENGTH ==> Base32(id)[0] < 16)
  {
    hide Base32, Number, Pow32;
    var digits := Base32(id);
    var k := |digits|;
    DigitCount(id);
    NoOneDigitZero(id);
    Pow32Facts();
    Pow32Step(12);
    if k > 13 {
      Pow32Grows(13, k - 1);
    } else if k == 13 {
      NumberOfDigits(id);
      NumberFront(digits);
      TopDigit(digits[0], Number(digits[1..]));
    }
  }

  lemma TopDigit(d: nat, low: nat)
    requires d * STOP_BIT + low < TWO64
    ensures d < 16
  {
  }

  lemma FirstDigit(d: nat, p: nat, low: nat, n: nat)
    requires n == d * p + low && low < p && (n > 0 ==> p <= n)
    ensures d == 0 <==> n == 0
  {
    if d > 0 {
      Multiple(p, d);
    }
  }

  /** `from_str(as_string(id))` is `id`. */
  lemma ReadOfWritten(id: U64)
    ensures RanksOf(Text(Base32(id))) == Some(Base32(id)) && Number(Base32(id)) % TWO64 == id
  {
    hide Base32, Number, Text, RanksOf;
    RanksOfText(Base32(id));
    NumberOfDigits(id);
  }

  /** `as_string(from_str(text))` is `text` for canonical text, and for no other that is accepted. */
  lemma WrittenOfRead(text: seq<nat>)
    requires RanksOf(text).Some?
    ensures Text(Base32(Number(RanksOf(text).value) % TWO64)) == text <==> Canonical(text)
  {
    hide Base32, Number, Canonical, RanksOf, Text, Symbol;
    var digits := RanksOf(text).value;
    var id := Number(digits) % TWO64;
    TextOfRanks(text);
    WrittenIsCanonical(id);
    if Canonical(text) {
      CanonicalFits(text, digits);
      DigitsOfNumber(digits);
      SymbolsAre(text, digits);
    }
  }

  lemma CanonicalFits(text: seq<nat>, digits: seq<nat>)
    requires Canonical(text) && Ranks(digits) && |digits| == |text|
    requires forall i :: 0 <= i < |text| ==> Inverse(text[i]) == Some(digits[i])
    ensures digits != [] && Number(digits) < TWO64 && (digits[0] == 0 ==> |digits| == 1)
  {
    hide Number, Pow32;
    var k := |digits| - 1;
    NumberFront(digits);
    Pow32Facts();
    if k == 12 {
      Below(digits[0], 16, STOP_BIT, Number(digits[1..]));
    } else {
      Below(digits[0], 32, Pow32(k), Number(digits[1..]));
      Pow32Step(k);
      Pow32Grows(k + 1, 12);
    }
  }

  lemma SymbolsAre(text: seq<nat>, digits: seq<nat>)
    requires Canonical(text) && Ranks(digits) && |digits| == |text|
    requires forall i :: 0 <= i < |text| ==> Inverse(text[i]) == Some(digits[i])
    ensures Text(digits) == text
  {
    hide Text;
    forall i | 0 <= i < |text| ensures Symbol(digits[i]) == text[i] {
      assert Inverse(text[i]) == Some(digits[i]) && !Upper(text[i]);
    }
  }

  /** An id survives being written and read. */
  method Reread(id: U64) returns (text: seq<nat>, back: Option<U64>)
    ensures Canonical(text) && back == Some(id)
  {
    text := AsString(id);
    ReadOfWritten(id);
    WrittenIsCanonical(id);
    back := FromStr(text);
  }

  // ------------------------------------------------------------------ capitals

  const LETTERS: string := "abcdefghijklmnopqrstuvwxyz"

  /** The character for each rank. */
  function Character(rank: nat): char
    requires rank < 32
  {
    if rank < 26 then LETTERS[rank] else ['7', '9', '2', '0', '1', '3'][rank - 26]
  }

  lemma SymbolIsCharacter(rank: nat)
    requires rank < 32
    ensures Symbol(rank) == Character(rank) as int
  {
  }

  predicate Letter(ch: nat) { 'a' as int <= ch <= 'z' as int }

  /** The text with its letters as capitals. */
  function Capitals(text: seq<nat>): seq<nat> {
    if text == [] then []
    else
      var ch := text[|text| - 1];
      Capitals(text[..|text| - 1]) + [if Letter(ch) then ch - 'a' as int + 'A' as int else ch]
  }

  lemma CapitalRead(ch: nat)
    requires Letter(ch)
    ensures Inverse(ch - 'a' as int + 'A' as int) == if ch >= 'k' as int then Inverse(ch) else None
  {
  }

  /** Only A to J are told from their small letters: a text in capitals reads the same if it has none of them, and not
      at all otherwise. */
  lemma {:induction false} CapitalsRead(text: seq<nat>)
    requires RanksOf(text).Some?
    requires forall i :: 0 <= i < |text| ==> !('A' as int <= text[i] <= 'Z' as int)
    ensures RanksOf(Capitals(text)) ==
      if exists i :: 0 <= i < |text| && 'a' as int <= text[i] <= 'j' as int then None else RanksOf(text)
  {
    hide Inverse;
    if text != [] {
      var k := |text| - 1;
      var init, more := text[..k], Capitals(text);
      CapitalsRead(init);
      assert more[..|more| - 1] == Capitals(init);
      if Letter(text[k]) {
        CapitalRead(text[k]);
      }
      assert (exists i :: 0 <= i < |text| && 'a' as int <= text[i] <= 'j' as int)
        <==> (exists i :: 0 <= i < k && 'a' as int <= init[i] <= 'j' as int) || 'a' as int <= text[k] <= 'j' as int
      by {
        assert forall i :: 0 <= i < k ==> init[i] == text[i];
      }
    }
  }

  /** What can be read at all: the alphabet, and the capitals from K on. */
  lemma ReadableAre(ch: nat)
    ensures Inverse(ch).Some? <==>
      Letter(ch) || 'K' as int <= ch <= 'Z' as int || '0' as int <= ch <= '3' as int || ch == '7' as int || ch == '9' as int
  {
  }
}
