/** Modified UTF-7, the mailbox names of section 5.1.3 of RFC 3501 (imap-proto/src/utf7.rs).
    Text is taken as its UTF-16 code units; characters are code points. */
module Utf7 {
  import opened Sequences
  import opened Wrappers
  import opened Modular

  type Unit = u: int | 0 <= u < 0x1_0000

  const AMP: nat := 0x26
  const DASH: nat := 0x2D

  /** `UTF_7_MAP`: A-Z, a-z, 0-9, plus and comma. */
  function Symbol(rank: nat): (ch: nat)
    requires rank < 64
  {
    if rank < 26 then 65 + rank
    else if rank < 52 then 97 + (rank - 26)
    else if rank < 62 then 48 + (rank - 52)
    else if rank == 62 then 43
    else 44
  }

  /** `UTF_7_RANK`, which holds 255 where there is no symbol. */
  function Rank(ch: nat): Option<nat> {
    if 65 <= ch <= 90 then Some(ch - 65)
    else if 97 <= ch <= 122 then Some(ch - 97 + 26)
    else if 48 <= ch <= 57 then Some(ch - 48 + 52)
    else if ch == 43 then Some(62)
    else if ch == 44 then Some(63)
    else None
  }

  // u32 arithmetic.  `<<` loses what leaves the word; `|` adds, as the low bits it fills are free; `& (2^k - 1)` is `% 2^k`.
  const WORD: nat := 0x1_0000_0000

  function Doubled(x: nat, k: nat): nat
    decreases k
  {
    if k == 0 then x else Doubled(2 * x, k - 1)
  }

  function Shl(x: nat, k: nat): nat {
    Doubled(x, k) % WORD
  }

  function Shr(x: nat, k: nat): nat
    decreases k
  {
    if k == 0 then x else Shr(x / 2, k - 1)
  }

  predicate Direct(ch: Unit) { 0x20 <= ch < 0x7F }

  // ------------------------------------------------------------- the encoder

  /** The encoder's three variables.  `u` is never cleared, so old bits stay above the `bits` that count. */
  datatype Encoder = Encoder(shifted: bool, bits: nat, u: nat)

  /** The last, padded symbol of a shifted stretch, and its end. */
  function Unshift(e: Encoder): seq<nat>
    requires e.bits < 6
  {
    if e.bits > 0 then [Symbol(Shl(e.u, 6 - e.bits) % 64), DASH] else [DASH]
  }

  /** The symbols of the six-bit groups that are complete. */
  function Groups(u: nat, bits: nat): seq<nat> {
    if bits < 6 then [] else [Symbol(Shr(u, bits - 6) % 64)] + Groups(u, bits - 6)
  }

  function Leftover(bits: nat): nat {
    if bits < 6 then bits else Leftover(bits - 6)
  }

  function Encode(text: seq<Unit>, e: Encoder): seq<nat>
    requires e.bits < 6
    decreases |text|
  {
    if text == [] then if e.shifted then Unshift(e) else []
    else Written(text[0], e) + Encode(text[1..], After(text[0], e))
  }

  lemma {:induction false} LeftoverSmall(bits: nat)
    ensures Leftover(bits) == bits % 6
  {
    if bits >= 6 {
      LeftoverSmall(bits - 6);
    }
  }

  /** `utf7_encode`. */
  method EncodeText(text: seq<Unit>) returns (result: seq<nat>)
    ensures result == Encode(text, Encoder(false, 0, 0))
  {
    hide Symbol, Shl, Shr, Encode, Groups, Unshift;
    result := [];
    var shifted, bits := false, 0;
    var u: nat := 0;
    assert text[0..] == text && [] + Encode(text, Encoder(false, 0, 0)) == Encode(text, Encoder(false, 0, 0));
    for i := 0 to |text|
      invariant bits < 6
      invariant result + Encode(text[i..], Encoder(shifted, bits, u)) == Encode(text, Encoder(false, 0, 0))
    {
      var ch := text[i];
      EncodeStep(text, i, Encoder(shifted, bits, u), result);
      if Direct(ch) {
        if shifted {
          result := Flush(result, bits, u);
          shifted := false;
          bits := 0;
        }
        if ch == AMP {
          result := result + [AMP, DASH];
        } else {
          result := result + [ch];
        }
      } else {
        if !shifted {
          result := result + [AMP];
          shifted := true;
        }
        u := Shl(u, 16) + ch;
        bits := bits + 16;
        result, bits := Emit(result, bits, u);
      }
    }
    EncodeEnd(text, Encoder(shifted, bits, u), result);
    if shifted {
      result := Flush(result, bits, u);
    }
  }

  method Flush(before: seq<nat>, bits: nat, u: nat) returns (result: seq<nat>)
    requires bits < 6
    ensures result == before + Unshift(Encoder(true, bits, u))
  {
    result := before;
    if bits > 0 {
      result := result + [Symbol(Shl(u, 6 - bits) % 64)];
    }
    result := result + [DASH];
  }

  /** The inner loop: all groups of six bits that are complete. */
  method Emit(before: seq<nat>, allBits: nat, u: nat) returns (result: seq<nat>, bits: nat)
    ensures result == before + Groups(u, allBits) && bits == Leftover(allBits) && bits < 6
  {
    result, bits := before, allBits;
    while bits >= 6
      invariant result + Groups(u, bits) == before + Groups(u, allBits)
      invariant Leftover(bits) == Leftover(allBits)
    {
      assert result + ([Symbol(Shr(u, bits - 6) % 64)] + Groups(u, bits - 6))
          == result + [Symbol(Shr(u, bits - 6) % 64)] + Groups(u, bits - 6);
      result := result + [Symbol(Shr(u, bits - 6) % 64)];
      bits := bits - 6;
    }
  }

  /** What the encoder writes for one unit, and the state it goes on in. */
  function Written(ch: Unit, e: Encoder): seq<nat>
    requires e.bits < 6
  {
    if Direct(ch) then (if e.shifted then Unshift(e) else []) + (if ch == AMP then [AMP, DASH] else [ch])
    else (if e.shifted then [] else [AMP]) + Groups(Shl(e.u, 16) + ch, e.bits + 16)
  }

  function After(ch: Unit, e: Encoder): (e': Encoder)
    requires e.bits < 6
    ensures e'.bits < 6
  {
    LeftoverSmall(e.bits + 16);
    if Direct(ch) then if e.shifted then Encoder(false, 0, e.u) else e
    else Encoder(true, Leftover(e.bits + 16), Shl(e.u, 16) + ch)
  }

  lemma EncodeFirst(text: seq<Unit>, i: nat, e: Encoder)
    requires i < |text| && e.bits < 6
    ensures Encode(text[i..], e) == Written(text[i], e) + Encode(text[i + 1..], After(text[i], e))
  {
    hide Written, After;
    assert text[i..][0] == text[i] && text[i..][1..] == text[i + 1..];
  }

  lemma EncodeStep(text: seq<Unit>, i: nat, e: Encoder, before: seq<nat>)
    requires i < |text| && e.bits < 6
    ensures before + Encode(text[i..], e) == before + Written(text[i], e) + Encode(text[i + 1..], After(text[i], e))
    ensures before + Written(text[i], e) ==
      if Direct(text[i]) then
        (if e.shifted then before + Unshift(e) else before) + (if text[i] == AMP then [AMP, DASH] else [text[i]])
      else (if e.shifted then before else before + [AMP]) + Groups(Shl(e.u, 16) + text[i], e.bits + 16)
  {
    hide Shl, Groups, Unshift, Encode, After;
    var ch := text[i];
    EncodeFirst(text, i, e);
    Associate(before, Written(ch, e), Encode(text[i + 1..], After(ch, e)));
    if Direct(ch) {
      Associate(before, if e.shifted then Unshift(e) else [], if ch == AMP then [AMP, DASH] else [ch]);
    } else {
      Associate(before, if e.shifted then [] else [AMP], Groups(Shl(e.u, 16) + ch, e.bits + 16));
    }
    assert before + [] == before;
  }

  lemma EncodeEnd(text: seq<Unit>, e: Encoder, before: seq<nat>)
    requires e.bits < 6
    ensures before + Encode(text[|text|..], e) == if e.shifted then before + Unshift(e) else before
  {
    assert text[|text|..] == [];
  }

  // ------------------------------------------------------------- the decoder

  datatype Decoder = Decoder(shifted: bool, bits: nat, v: nat)

  /** The state after six more bits, and the unit they complete, if there are 16 by then. */
  function Take(d: Decoder, rank: nat): (d': Decoder)
    requires d.bits < 16
    ensures d'.bits < 16
  {
    Decoder(true, if d.bits + 6 >= 16 then d.bits + 6 - 16 else d.bits + 6, Shl(d.v, 6) + rank)
  }

  /** The state after the symbols that one more unit fills, when `bits` bits of the unit before, in `u`, come first. */
  function ReadUnit(ch: Unit, bits: nat, u: nat, d: Decoder): (d': Decoder)
    requires d.bits < 16
    ensures d'.bits < 16
  {
    if bits == 0 then Take(Take(d, ch / 1024), ch / 16 % 64)
    else if bits == 4 then Take(Take(Take(d, u % 16 * 4 + ch / 16384), ch / 256 % 64), ch / 4 % 64)
    else Take(Take(Take(d, u % 4 * 16 + ch / 4096), ch / 64 % 64), ch % 64)
  }

  function Ready(d: Decoder, rank: nat): Unit
    requires d.bits + 6 >= 16
  {
    Shr(Shl(d.v, 6) + rank, d.bits + 6 - 16) % 0x1_0000
  }

  /** The code units of the text, or nothing where the original returns `None`. */
  function Decode(text: seq<nat>, d: Decoder): Option<seq<Unit>>
    requires d.bits < 16
    decreases |text|
  {
    if text == [] then Some([])
    else
      var ch, rest := text[0], text[1..];
      if d.shifted then
        if ch == DASH then Decode(rest, Decoder(false, 0, 0))
        else if ch > 127 then None
        else match Rank(ch)
          case None => None
          case Some(rank) =>
            var d' := Take(d, rank);
            if d.bits + 6 >= 16 then Cons(Ready(d, rank), Decode(rest, d')) else Decode(rest, d')
      else if ch == AMP then
        if rest == [] then Cons(AMP, Decode(rest, d))
        else if rest[0] == DASH then Cons(AMP, Decode(rest[1..], d))
        else Decode(rest, Decoder(true, d.bits, d.v))
      else Cons(ch % 0x1_0000, Decode(rest, d))
  }

  function Cons(unit: Unit, rest: Option<seq<Unit>>): Option<seq<Unit>> {
    match rest
    case None => None
    case Some(units) => Some([unit] + units)
  }

  function Prefixed(units: seq<Unit>, rest: Option<seq<Unit>>): Option<seq<Unit>> {
    match rest
    case None => None
    case Some(more) => Some(units + more)
  }

  lemma PrefixedCons(units: seq<Unit>, unit: Unit, rest: Option<seq<Unit>>)
    ensures Prefixed(units, Cons(unit, rest)) == Prefixed(units + [unit], rest)
  {
    if rest.Some? {
      assert units + ([unit] + rest.value) == units + [unit] + rest.value;
    }
  }

  /** `String::from_utf16` accepts exactly the sequences in which surrogates come in pairs. */
  predicate ValidUtf16(units: seq<Unit>) {
    units == [] ||
    if 0xD800 <= units[0] < 0xDC00 then |units| >= 2 && 0xDC00 <= units[1] < 0xE000 && ValidUtf16(units[2..])
    else !(0xDC00 <= units[0] < 0xE000) && ValidUtf16(units[1..])
  }

  /** `utf7_decode`. */
  method DecodeText(text: seq<nat>) returns (r: Option<seq<Unit>>)
    ensures r == match Decode(text, Decoder(false, 0, 0))
      case None => None
      case Some(units) => if ValidUtf16(units) then Some(units) else None
  {
    hide Rank, Shl, Shr, ValidUtf16;
    var units: seq<Unit> := [];
    var shifted, bits := false, 0;
    var v: nat := 0;
    var i := 0;
    PrefixedNone(Decode(text, Decoder(false, 0, 0)));
    assert text[0..] == text;
    while i < |text|
      invariant i <= |text| && bits < 16
      invariant Prefixed(units, Decode(text[i..], Decoder(shifted, bits, v))) == Decode(text, Decoder(false, 0, 0))
      decreases |text| - i
    {
      var ch := text[i];
      ghost var rest := text[i..];
      assert rest[1..] == text[i + 1..] && rest[0] == ch;
      i := i + 1;
      if shifted {
        if ch == DASH {
          shifted, bits, v := false, 0, 0;
        } else if ch > 127 {
          return None;
        } else {
          var rank := Rank(ch);
          if rank.None? {
            return None;
          }
          ghost var d := Decoder(shifted, bits, v);
          v := Shl(v, 6) + rank.value;
          bits := bits + 6;
          if bits >= 16 {
            PrefixedCons(units, Ready(d, rank.value), Decode(text[i..], Take(d, rank.value)));
            units := units + [Shr(v, bits - 16) % 0x1_0000];
            bits := bits - 16;
          }
        }
      } else if ch == AMP {
        if i < |text| {
          if text[i] == DASH {
            assert rest[1..][1..] == text[i + 1..];
            PrefixedCons(units, AMP, Decode(text[i + 1..], Decoder(false, bits, v)));
            units := units + [AMP];
            i := i + 1;
          } else {
            shifted := true;
          }
        } else {
          PrefixedCons(units, AMP, Decode(text[i..], Decoder(false, bits, v)));
          units := units + [AMP];
        }
      } else {
        PrefixedCons(units, ch % 0x1_0000, Decode(text[i..], Decoder(false, bits, v)));
        units := units + [ch % 0x1_0000];
      }
    }
    assert text[i..] == [] && units + [] == units;
    return if ValidUtf16(units) then Some(units) else None;
  }

  lemma PrefixedNone(rest: Option<seq<Unit>>)
    ensures Prefixed([], rest) == rest
  {
    if rest.Some? {
      assert [] + rest.value == rest.value;
    }
  }

  // ----------------------------------------------------------- the round trip

  lemma Shifts(x: nat)
    ensures Shr(x, 0) == x && Shr(x, 2) == x / 4 && Shr(x, 4) == x / 16 && Shr(x, 6) == x / 64
  {
  }

  lemma LongShifts(x: nat)
    ensures Shr(x, 8) == x / 256 && Shr(x, 10) == x / 1024 && Shr(x, 12) == x / 4096 && Shr(x, 14) == x / 16384
  {
  }

  lemma {:induction false} DoubledTwice(x: nat, j: nat, k: nat)
    ensures Doubled(x, j + k) == Doubled(Doubled(x, j), k)
    decreases j
  {
    if j > 0 {
      DoubledTwice(2 * x, j - 1, k);
    }
  }

  lemma Doubled8(x: nat)
    ensures Doubled(x, 8) == 256 * x
  {
  }

  lemma LeftShifts(x: nat)
    ensures Shl(x, 2) == 4 * x % WORD && Shl(x, 4) == 16 * x % WORD && Shl(x, 6) == 64 * x % WORD
    ensures Shl(x, 16) == 65536 * x % WORD
  {
    hide Shl;
    assert Doubled(x, 2) == 4 * x && Doubled(x, 4) == 16 * x && Doubled(x, 6) == 64 * x;
    DoubledTwice(x, 8, 8);
    Doubled8(x);
    Doubled8(256 * x);
    ShlIs(x, 2);
    ShlIs(x, 4);
    ShlIs(x, 6);
    ShlIs(x, 16);
  }

  lemma ShlIs(x: nat, k: nat)
    ensures Shl(x, k) == Doubled(x, k) % WORD
  {
  }

  lemma SymbolRank(rank: nat)
    requires rank < 64
    ensures Rank(Symbol(rank)) == Some(rank) && Symbol(rank) != DASH && Symbol(rank) != AMP && 0x20 < Symbol(rank) < 0x7F
  {
  }

  /** What one symbol does to a shifted decoder. */
  lemma DecodeSymbol(rank: nat, rest: seq<nat>, d: Decoder)
    requires rank < 64 && d.shifted && d.bits < 16
    ensures Decode([Symbol(rank)] + rest, d) ==
      if d.bits + 6 >= 16 then Cons(Ready(d, rank), Decode(rest, Take(d, rank))) else Decode(rest, Take(d, rank))
  {
    hide Symbol, Rank, Take, Ready, Cons;
    SymbolRank(rank);
    assert ([Symbol(rank)] + rest)[1..] == rest;
  }

  lemma DecodeDash(rest: seq<nat>, d: Decoder)
    requires d.shifted && d.bits < 16
    ensures Decode([DASH] + rest, d) == Decode(rest, Decoder(false, 0, 0))
  {
    assert ([DASH] + rest)[1..] == rest;
  }

  /** Behind any stretch the encoder has written, the decoder lags by the `e.bits` bits of the unit `last` that are
      still to come; both keep stale bits above the ones that count. */
  ghost predicate InStep(e: Encoder, d: Decoder, last: Unit) {
    if !e.shifted then e.bits == 0 && d == Decoder(false, 0, 0)
    else
      && d.shifted
      && match e.bits {
           case 0 => d.bits == 0
           case 2 => d.bits == 14 && d.v % 16384 == last / 4 && e.u % 4 == last % 4
           case 4 => d.bits == 12 && d.v % 4096 == last / 16 && e.u % 16 == last % 16
           case _ => false
         }
  }

  function Lagging(e: Encoder, last: Unit): seq<Unit> {
    if e.bits > 0 then [last] else []
  }

  lemma SymbolIn(v: nat, rank: nat, k: nat, c: nat)
    requires k > 0 && rank < 64 && k * 64 * c == WORD
    ensures (Shl(v, 6) + rank) % (k * 64) == v % k * 64 + rank
  {
    hide Shl;
    LeftShifts(v);
    ShiftIn(WORD, v, 64, k, c, rank);
  }

  lemma UnitIn(u: nat, ch: Unit, k: nat, c: nat)
    requires k > 0 && k * 0x1_0000 * c == WORD
    ensures (Shl(u, 16) + ch) % (k * 0x1_0000) == u % k * 0x1_0000 + ch
  {
    hide Shl;
    LeftShifts(u);
    ShiftIn(WORD, u, 0x1_0000, k, c, ch);
  }

  // ------------------------------------------- what the encoder sends per unit

  /** A six-bit field inside the unit that was shifted in last. */
  lemma Inner(u: nat, ch: Unit, k: nat, c: nat)
    requires k > 0 && k * 64 * c == 0x1_0000
    ensures (Shl(u, 16) + ch) / k % 64 == ch / k % 64
  {
    hide Shl;
    var w := Shl(u, 16) + ch;
    UnitIn(u, ch, 1, 0x1_0000);
    ModMod(w, k * 64, c);
    ModMod(ch, k * 64, c);
    Field(w, k, 64);
    Field(ch, k, 64);
  }

  lemma GroupsOf(w: nat)
    ensures Groups(w, 16) == [Symbol(Shr(w, 10) % 64), Symbol(Shr(w, 4) % 64)]
    ensures Groups(w, 18) == [Symbol(Shr(w, 12) % 64), Symbol(Shr(w, 6) % 64), Symbol(Shr(w, 0) % 64)]
    ensures Groups(w, 20) == [Symbol(Shr(w, 14) % 64), Symbol(Shr(w, 8) % 64), Symbol(Shr(w, 2) % 64)]
  {
    hide Shr, Symbol;
    assert Groups(w, 4) == [] && Groups(w, 10) == [Symbol(Shr(w, 4) % 64)];
    assert Groups(w, 2) == [] && Groups(w, 8) == [Symbol(Shr(w, 2) % 64)];
    assert Groups(w, 14) == [Symbol(Shr(w, 8) % 64), Symbol(Shr(w, 2) % 64)];
    assert Groups(w, 0) == [] && Groups(w, 6) == [Symbol(Shr(w, 0) % 64)];
    assert Groups(w, 12) == [Symbol(Shr(w, 6) % 64), Symbol(Shr(w, 0) % 64)];
  }

  lemma TopOf16(u: nat, ch: Unit)
    ensures Shr(Shl(u, 16) + ch, 10) % 64 == ch / 1024
  {
    hide Shl, Shr;
    Inner(u, ch, 1024, 1);
    LongShifts(Shl(u, 16) + ch);
  }

  lemma NextOf16(u: nat, ch: Unit)
    ensures Shr(Shl(u, 16) + ch, 4) % 64 == ch / 16 % 64
  {
    hide Shl, Shr;
    Inner(u, ch, 16, 64);
    Shifts(Shl(u, 16) + ch);
  }

  lemma Sent16(u: nat, ch: Unit)
    ensures Groups(Shl(u, 16) + ch, 16) == [Symbol(ch / 1024), Symbol(ch / 16 % 64)]
  {
    hide Shl, Shr, Symbol, Groups;
    var w := Shl(u, 16) + ch;
    GroupsOf(w);
    TopOf16(u, ch);
    NextOf16(u, ch);
  }

  lemma Sent20(u: nat, ch: Unit)
    ensures u % 16 * 4 + ch / 16384 < 64
    ensures Groups(Shl(u, 16) + ch, 20) == [Symbol(u % 16 * 4 + ch / 16384), Symbol(ch / 256 % 64), Symbol(ch / 4 % 64)]
  {
    hide Shl, Shr, Symbol, Groups;
    var w := Shl(u, 16) + ch;
    GroupsOf(w);
    UnitIn(u, ch, 16, 0x1000);
    Field(w, 16384, 64);
    ModIs(u % 16 * 0x1_0000 + ch, 16384, u % 16 * 4 + ch / 16384, ch % 16384);
    Inner(u, ch, 256, 4);
    Inner(u, ch, 4, 256);
    Shifts(w);
    LongShifts(w);
  }

  lemma Sent18(u: nat, ch: Unit)
    ensures u % 4 * 16 + ch / 4096 < 64
    ensures Groups(Shl(u, 16) + ch, 18) == [Symbol(u % 4 * 16 + ch / 4096), Symbol(ch / 64 % 64), Symbol(ch % 64)]
  {
    hide Shl, Shr, Symbol, Groups;
    var w := Shl(u, 16) + ch;
    GroupsOf(w);
    UnitIn(u, ch, 4, 0x4000);
    Field(w, 4096, 64);
    ModIs(u % 4 * 0x1_0000 + ch, 4096, u % 4 * 16 + ch / 4096, ch % 4096);
    Inner(u, ch, 64, 16);
    Inner(u, ch, 1, 1024);
    Shifts(w);
    LongShifts(w);
  }

  // ------------------------------------------ what the decoder makes of it

  lemma TakenLow(d: Decoder, rank: nat)
    requires d.bits < 16 && rank < 64
    ensures var v := Take(d, rank).v;
      && v % 64 == rank && v % 256 == d.v % 4 * 64 + rank && v % 1024 == d.v % 16 * 64 + rank
      && v % 4096 == d.v % 64 * 64 + rank && v % 16384 == d.v % 256 * 64 + rank
  {
    hide Shl;
    SymbolIn(d.v, rank, 1, 0x400_0000);
    SymbolIn(d.v, rank, 4, 0x100_0000);
    SymbolIn(d.v, rank, 16, 0x40_0000);
    SymbolIn(d.v, rank, 64, 0x10_0000);
    SymbolIn(d.v, rank, 256, 0x4_0000);
  }

  lemma ReadyAt12(d: Decoder, rank: nat, last: Unit)
    requires d.bits == 12 && rank < 64 && d.v % 4096 == last / 16 && rank / 4 == last % 16
    ensures Ready(d, rank) == last
  {
    hide Shl, Shr;
    var v := Shl(d.v, 6) + rank;
    SymbolIn(d.v, rank, 4096, 0x4000);
    Shifts(v);
    Field(v, 4, 0x1_0000);
    ModIs(last / 16 * 64 + rank, 4, last / 16 * 16 + rank / 4, rank % 4);
  }

  lemma ReadyAt14(d: Decoder, rank: nat, last: Unit)
    requires d.bits == 14 && rank < 64 && d.v % 16384 == last / 4 && rank / 16 == last % 4
    ensures Ready(d, rank) == last
  {
    hide Shl, Shr;
    var v := Shl(d.v, 6) + rank;
    SymbolIn(d.v, rank, 16384, 0x1000);
    Shifts(v);
    Field(v, 16, 0x1_0000);
    ModIs(last / 4 * 64 + rank, 16, last / 4 * 4 + rank / 16, rank % 16);
  }

  lemma ReadyAt10(d: Decoder, rank: nat)
    requires d.bits == 10 && rank < 64
    ensures Ready(d, rank) == d.v % 1024 * 64 + rank
  {
    hide Shl, Shr;
    SymbolIn(d.v, rank, 1024, 0x1_0000);
    Shifts(Shl(d.v, 6) + rank);
  }

  // A unit is the sum of its fields.

  lemma Fields16(ch: Unit)
    ensures ch / 1024 * 64 + ch / 16 % 64 == ch / 16
  {
  }

  lemma Fields20(ch: Unit)
    ensures (ch / 16384 * 64 + ch / 256 % 64) * 64 + ch / 4 % 64 == ch / 4
  {
    assert ch / 16384 * 64 + ch / 256 % 64 == ch / 256;
  }

  lemma Fields18(ch: Unit)
    ensures (ch / 4096 * 64 + ch / 64 % 64) * 64 + ch % 64 == ch
  {
    assert ch / 4096 * 64 + ch / 64 % 64 == ch / 64;
  }

  /** A unit behind a complete one: two symbols, four bits to come. */
  lemma Unit16(ch: Unit, u: nat, d: Decoder, rest: seq<nat>) returns (d': Decoder)
    requires d.shifted && d.bits == 0
    ensures d'.shifted && d'.bits == 12 && d'.v % 4096 == ch / 16 && d' == ReadUnit(ch, 0, u, d)
    ensures Decode(Groups(Shl(u, 16) + ch, 16) + rest, d) == Decode(rest, d')
  {
    hide Decode, Groups, Shl, Shr, Symbol, Ready;
    var s1, s2 := ch / 1024, ch / 16 % 64;
    var d1 := Take(d, s1);
    d' := Take(d1, s2);
    Sent16(u, ch);
    TakenLow(d, s1);
    TakenLow(d1, s2);
    Fields16(ch);
    DecodeSymbol(s1, [Symbol(s2)] + rest, d);
    DecodeSymbol(s2, rest, d1);
    assert [Symbol(s1), Symbol(s2)] + rest == [Symbol(s1)] + ([Symbol(s2)] + rest);
  }

  /** A unit behind one with four bits to come: they complete it, and two bits are to come. */
  lemma Unit20(ch: Unit, u: nat, d: Decoder, last: Unit, rest: seq<nat>) returns (d': Decoder)
    requires d.shifted && d.bits == 12 && d.v % 4096 == last / 16 && u % 16 == last % 16
    ensures d'.shifted && d'.bits == 14 && d'.v % 16384 == ch / 4 && d' == ReadUnit(ch, 4, u, d)
    ensures Decode(Groups(Shl(u, 16) + ch, 20) + rest, d) == Cons(last, Decode(rest, d'))
  {
    hide Decode, Groups, Shl, Shr, Symbol, Ready, Cons, Take;
    Sent20(u, ch);
    var s1, s2, s3 := u % 16 * 4 + ch / 16384, ch / 256 % 64, ch / 4 % 64;
    var d1 := Take(d, s1);
    var d2 := Take(d1, s2);
    d' := Take(d2, s3);
    TakeBits(d, s1);
    TakeBits(d1, s2);
    TakeBits(d2, s3);
    Low20(ch, u, d, d1, d2);
    ModIs(s1, 4, u % 16, ch / 16384);
    ReadyAt12(d, s1, last);
    ThreeSymbols(s1, s2, s3, rest, d);
  }

  lemma TakeBits(d: Decoder, rank: nat)
    requires d.bits < 16
    ensures Take(d, rank).shifted && Take(d, rank).bits == if d.bits + 6 >= 16 then d.bits - 10 else d.bits + 6
  {
  }

  lemma Low20(ch: Unit, u: nat, d: Decoder, d1: Decoder, d2: Decoder)
    requires u % 16 * 4 + ch / 16384 < 64 && d.bits < 16
    requires d1 == Take(d, u % 16 * 4 + ch / 16384) && d2 == Take(d1, ch / 256 % 64)
    ensures Take(d2, ch / 4 % 64).v % 16384 == ch / 4
  {
    hide Take;
    TakenLow(d, u % 16 * 4 + ch / 16384);
    TakenLow(d1, ch / 256 % 64);
    TakenLow(d2, ch / 4 % 64);
    ModMod(d1.v, 4, 16);
    ModIs(u % 16 * 4 + ch / 16384, 4, u % 16, ch / 16384);
    Fields20(ch);
  }

  lemma Low18(ch: Unit, u: nat, d: Decoder, d1: Decoder, d2: Decoder)
    requires u % 4 * 16 + ch / 4096 < 64 && d.bits < 16
    requires d1 == Take(d, u % 4 * 16 + ch / 4096) && d2 == Take(d1, ch / 64 % 64)
    ensures d2.v % 1024 * 64 + ch % 64 == ch
  {
    hide Take;
    TakenLow(d, u % 4 * 16 + ch / 4096);
    TakenLow(d1, ch / 64 % 64);
    ModMod(d1.v, 16, 4);
    ModIs(u % 4 * 16 + ch / 4096, 16, u % 4, ch / 4096);
    Fields18(ch);
  }

  lemma ThreeSymbols(s1: nat, s2: nat, s3: nat, rest: seq<nat>, d: Decoder)
    requires s1 < 64 && s2 < 64 && s3 < 64 && d.shifted && 12 <= d.bits < 16
    ensures var d1 := Take(d, s1);
      var d2 := Take(d1, s2);
      var d3 := Take(d2, s3);
      Decode([Symbol(s1), Symbol(s2), Symbol(s3)] + rest, d) ==
        Cons(Ready(d, s1), if d2.bits + 6 >= 16 then Cons(Ready(d2, s3), Decode(rest, d3)) else Decode(rest, d3))
  {
    hide Decode, Symbol, Ready, Cons, Take;
    var d1 := Take(d, s1);
    var d2 := Take(d1, s2);
    TakeBits(d, s1);
    TakeBits(d1, s2);
    TakeBits(d2, s3);
    DecodeSymbol(s1, [Symbol(s2)] + ([Symbol(s3)] + rest), d);
    DecodeSymbol(s2, [Symbol(s3)] + rest, d1);
    DecodeSymbol(s3, rest, d2);
    assert [Symbol(s1), Symbol(s2), Symbol(s3)] + rest == [Symbol(s1)] + ([Symbol(s2)] + ([Symbol(s3)] + rest));
  }

  /** A unit behind one with two bits to come: both are complete then. */
  lemma Unit18(ch: Unit, u: nat, d: Decoder, last: Unit, rest: seq<nat>) returns (d': Decoder)
    requires d.shifted && d.bits == 14 && d.v % 16384 == last / 4 && u % 4 == last % 4
    ensures d'.shifted && d'.bits == 0 && d' == ReadUnit(ch, 2, u, d)
    ensures Decode(Groups(Shl(u, 16) + ch, 18) + rest, d) == Cons(last, Cons(ch, Decode(rest, d')))
  {
    hide Decode, Groups, Shl, Shr, Symbol, Ready, Cons, Take;
    Sent18(u, ch);
    var s1, s2, s3 := u % 4 * 16 + ch / 4096, ch / 64 % 64, ch % 64;
    var d1 := Take(d, s1);
    var d2 := Take(d1, s2);
    d' := Take(d2, s3);
    TakeBits(d, s1);
    TakeBits(d1, s2);
    TakeBits(d2, s3);
    Low18(ch, u, d, d1, d2);
    ModIs(s1, 16, u % 4, ch / 4096);
    ReadyAt14(d, s1, last);
    ReadyAt10(d2, s3);
    ThreeSymbols(s1, s2, s3, rest, d);
  }

  // ------------------------------------------------- ends of stretches

  lemma PaddedRank(u: nat)
    ensures Shl(u, 2) % 64 == u % 16 * 4 && Shl(u, 4) % 64 == u % 4 * 16
  {
    hide Shl;
    LeftShifts(u);
    var q2, q4 := 4 * u / WORD, 16 * u / WORD;
    ModIs(4 * u % WORD, 64, u / 16 - 0x400_0000 * q2, u % 16 * 4);
    ModIs(16 * u % WORD, 64, u / 4 - 0x400_0000 * q4, u % 4 * 16);
  }

  lemma UnshiftRead(e: Encoder, d: Decoder, last: Unit, rest: seq<nat>)
    requires e.shifted && InStep(e, d, last) && e.bits < 6
    ensures Decode(Unshift(e) + rest, d) == Prefixed(Lagging(e, last), Decode(rest, Decoder(false, 0, 0)))
  {
    hide Decode, Shl, Symbol, Ready;
    if e.bits == 0 {
      DecodeDash(rest, d);
      PrefixedNone(Decode(rest, Decoder(false, 0, 0)));
    } else {
      var rank := Shl(e.u, 6 - e.bits) % 64;
      PaddedRank(e.u);
      if e.bits == 4 {
        ReadyAt12(d, rank, last);
      } else {
        ReadyAt14(d, rank, last);
      }
      DecodeSymbol(rank, [DASH] + rest, d);
      DecodeDash(rest, Take(d, rank));
      assert [Symbol(rank), DASH] + rest == [Symbol(rank)] + ([DASH] + rest);
    }
  }

  lemma DirectRead(ch: Unit, rest: seq<nat>)
    requires Direct(ch)
    ensures Decode((if ch == AMP then [AMP, DASH] else [ch]) + rest, Decoder(false, 0, 0))
         == Cons(ch, Decode(rest, Decoder(false, 0, 0)))
  {
    hide Rank, Take, Ready;
    if ch == AMP {
      assert ([AMP, DASH] + rest)[1..] == [DASH] + rest && ([DASH] + rest)[1..] == rest;
    } else {
      assert ([ch] + rest)[1..] == rest;
    }
  }

  /** An ampersand that is not followed by a dash opens a stretch. */
  lemma OpenRead(rank: nat, more: seq<nat>)
    requires rank < 64
    ensures Decode([AMP] + ([Symbol(rank)] + more), Decoder(false, 0, 0))
         == Decode([Symbol(rank)] + more, Decoder(true, 0, 0))
  {
    hide Symbol, Rank, Take, Ready;
    SymbolRank(rank);
    assert ([AMP] + ([Symbol(rank)] + more))[1..] == [Symbol(rank)] + more;
  }

  lemma GroupsStart(w: nat, bits: nat) returns (rank: nat, more: seq<nat>)
    requires bits >= 6
    ensures rank < 64 && Groups(w, bits) == [Symbol(rank)] + more
  {
    rank, more := Shr(w, bits - 6) % 64, Groups(w, bits - 6);
  }

  // ---------------------------------------------------------- the theorem

  lemma PrefixedOne(a: Unit, b: Unit, rest: Option<seq<Unit>>)
    ensures Prefixed([a], rest) == Cons(a, rest)
    ensures Prefixed([a, b], rest) == Cons(a, Cons(b, rest))
  {
    if rest.Some? {
      assert [a] + ([b] + rest.value) == [a, b] + rest.value;
    }
  }

  lemma LowBits(u: nat, ch: Unit)
    ensures (Shl(u, 16) + ch) % 16 == ch % 16 && (Shl(u, 16) + ch) % 4 == ch % 4
  {
    hide Shl;
    var w := Shl(u, 16) + ch;
    UnitIn(u, ch, 1, 0x1_0000);
    ModMod(w, 16, 4096);
    ModMod(w, 4, 16384);
  }

  /** One shifted unit: the decoder stays in step, and what it owes and gets comes out in order. */
  lemma UnitRead(ch: Unit, e: Encoder, d: Decoder, last: Unit, rest: seq<nat>) returns (d': Decoder, got: seq<Unit>)
    requires !Direct(ch) && e.shifted && InStep(e, d, last) && e.bits < 6
    ensures d'.bits < 16 && InStep(After(ch, e), d', ch)
    ensures d.bits < 16 && d' == ReadUnit(ch, e.bits, e.u, d)
    ensures got + Lagging(After(ch, e), ch) == Lagging(e, last) + [ch]
    ensures Decode(Groups(Shl(e.u, 16) + ch, e.bits + 16) + rest, d) == Prefixed(got, Decode(rest, d'))
  {
    hide Decode, Groups, Shl, Shr, Cons, Prefixed, Leftover, ReadUnit;
    LeftoverSmall(e.bits + 16);
    LowBits(e.u, ch);
    if e.bits == 0 {
      d' := Unit16(ch, e.u, d, rest);
      got := [];
      PrefixedNone(Decode(rest, d'));
    } else if e.bits == 4 {
      d' := Unit20(ch, e.u, d, last, rest);
      got := [last];
      PrefixedOne(last, ch, Decode(rest, d'));
    } else {
      d' := Unit18(ch, e.u, d, last, rest);
      got := [last, ch];
      PrefixedOne(last, ch, Decode(rest, d'));
    }
  }

  lemma EndRead(e: Encoder, d: Decoder, last: Unit)
    requires e.bits < 6 && d.bits < 16 && InStep(e, d, last)
    ensures Decode(if e.shifted then Unshift(e) else [], d) == Some(Lagging(e, last))
  {
    hide Unshift, Shl;
    if e.shifted {
      UnshiftRead(e, d, last, []);
      assert Unshift(e) + [] == Unshift(e) && Lagging(e, last) + [] == Lagging(e, last);
    }
  }

  lemma DirectStep(ch: Unit, e: Encoder, d: Decoder, last: Unit, rest: seq<nat>)
    requires e.bits < 6 && d.bits < 16 && InStep(e, d, last) && Direct(ch)
    ensures InStep(After(ch, e), Decoder(false, 0, 0), ch)
    ensures Decode(Written(ch, e) + rest, d) == Prefixed(Lagging(e, last) + [ch], Decode(rest, Decoder(false, 0, 0)))
  {
    hide Decode, Unshift, Direct, Cons, Prefixed;
    var direct := if ch == AMP then [AMP, DASH] else [ch];
    DirectRead(ch, rest);
    PrefixedCons(Lagging(e, last), ch, Decode(rest, Decoder(false, 0, 0)));
    if e.shifted {
      UnshiftRead(e, d, last, direct + rest);
      assert Unshift(e) + direct + rest == Unshift(e) + (direct + rest);
    } else {
      assert [] + direct == direct;
      PrefixedNone(Cons(ch, Decode(rest, Decoder(false, 0, 0))));
    }
  }

  lemma ShiftedStep(ch: Unit, e: Encoder, d: Decoder, last: Unit, rest: seq<nat>) returns (d': Decoder, got: seq<Unit>)
    requires e.bits < 6 && d.bits < 16 && InStep(e, d, last) && !Direct(ch)
    ensures d'.bits < 16 && InStep(After(ch, e), d', ch)
    ensures d' == ReadUnit(ch, e.bits, e.u, if e.shifted then d else Decoder(true, 0, 0))
    ensures got + Lagging(After(ch, e), ch) == Lagging(e, last) + [ch]
    ensures Decode(Written(ch, e) + rest, d) == Prefixed(got, Decode(rest, d'))
  {
    hide Decode, Groups, Shl, Prefixed, Direct, ReadUnit;
    var groups := Groups(Shl(e.u, 16) + ch, e.bits + 16);
    if e.shifted {
      assert [] + groups == groups;
      d', got := UnitRead(ch, e, d, last, rest);
    } else {
      var rank, more := GroupsStart(Shl(e.u, 16) + ch, e.bits + 16);
      OpenRead(rank, more + rest);
      assert [AMP] + groups + rest == [AMP] + ([Symbol(rank)] + (more + rest));
      assert groups + rest == [Symbol(rank)] + (more + rest);
      d', got := UnitRead(ch, Encoder(true, 0, e.u), Decoder(true, 0, 0), last, rest);
    }
  }

  /** From any pair of states in step: the decoder reads back what it lags behind, and then all of the text. */
  lemma {:induction false} ReadBack(text: seq<Unit>, e: Encoder, d: Decoder, last: Unit)
    requires e.bits < 6 && d.bits < 16 && InStep(e, d, last)
    ensures Decode(Encode(text, e), d) == Some(Lagging(e, last) + text)
    decreases |text|
  {
    hide Decode, Unshift, InStep, Written, After, Direct;
    if text == [] {
      EndRead(e, d, last);
      assert Lagging(e, last) + text == Lagging(e, last);
    } else {
      var ch, e' := text[0], After(text[0], e);
      var d', got := Decoder(false, 0, 0), Lagging(e, last) + [ch];
      if Direct(ch) {
        DirectStep(ch, e, d, last, Encode(text[1..], e'));
        assert got + Lagging(e', ch) == got by { NothingOwed(ch, e, d, last); }
      } else {
        d', got := ShiftedStep(ch, e, d, last, Encode(text[1..], e'));
      }
      ReadBack(text[1..], e', d', ch);
      Associate(got, Lagging(e', ch), text[1..]);
      assert [ch] + text[1..] == text;
      Associate(Lagging(e, last), [ch], text[1..]);
    }
  }

  lemma NothingOwed(ch: Unit, e: Encoder, d: Decoder, last: Unit)
    requires e.bits < 6 && Direct(ch) && InStep(e, d, last)
    ensures Lagging(After(ch, e), ch) == []
  {
  }

  /** Decoding what was encoded gives the text back; `from_utf16` then accepts it exactly when its surrogates pair up. */
  lemma RoundTrip(text: seq<Unit>)
    ensures Decode(Encode(text, Encoder(false, 0, 0)), Decoder(false, 0, 0)) == Some(text)
  {
    ReadBack(text, Encoder(false, 0, 0), Decoder(false, 0, 0), 0);
    assert [] + text == text;
  }

  method EncodeDecode(text: seq<Unit>) returns (encoded: seq<nat>, r: Option<seq<Unit>>)
    ensures Printable(encoded)
    ensures r == if ValidUtf16(text) then Some(text) else None
  {
    encoded := EncodeText(text);
    RoundTrip(text);
    OutputIsPrintable(text, Encoder(false, 0, 0));
    r := DecodeText(encoded);
  }

  // --------------------------------------------------- the encoded alphabet

  predicate Printable(s: seq<nat>) {
    forall i :: 0 <= i < |s| ==> 0x20 <= s[i] < 0x7F
  }

  lemma {:induction false} GroupsPrintable(u: nat, bits: nat)
    ensures Printable(Groups(u, bits))
  {
    if bits >= 6 {
      GroupsPrintable(u, bits - 6);
    }
  }

  /** Whatever the text, the output is printable ASCII. */
  lemma {:induction false} OutputIsPrintable(text: seq<Unit>, e: Encoder)
    requires e.bits < 6
    ensures Printable(Encode(text, e))
    decreases |text|
  {
    hide Groups, Shl;
    if text != [] {
      GroupsPrintable(Shl(e.u, 16) + text[0], e.bits + 16);
      OutputIsPrintable(text[1..], After(text[0], e));
    }
  }
}
