/** The other direction of modified UTF-7: which texts are what the encoder writes for what the decoder reads, and what
    becomes of characters that the decoder truncates (imap-proto/src/utf7.rs). */
module Utf7Canonical {
  import opened Wrappers
  import opened Modular
  import opened Sequences
  import opened Utf7

  const UNSHIFTED: Decoder := Decoder(false, 0, 0)
  const OPENED: Decoder := Decoder(true, 0, 0)

  // ------------------------------------------------- characters beyond 16 bits

  /** The characters of a string. */
  predicate Scalar(ch: nat) { ch < 0xD800 || 0xE000 <= ch < 0x11_0000 }

  predicate Scalars(text: seq<nat>) { forall i :: 0 <= i < |text| ==> Scalar(text[i]) }

  function Utf16(text: seq<nat>): seq<Unit>
    requires Scalars(text)
  {
    if text == [] then []
    else
      var ch := text[0];
      (if ch < 0x1_0000 then [ch]
       else [0xD800 + (ch - 0x1_0000) / 0x400, 0xDC00 + (ch - 0x1_0000) % 0x400])
      + Utf16(text[1..])
  }

  predicate Narrow(text: seq<nat>) { forall i :: 0 <= i < |text| ==> text[i] < 0x1_0000 }

  /** Outside a stretch each character becomes one unit, cut to 16 bits. */
  function Cut(text: seq<nat>): (units: seq<Unit>)
    ensures |units| == |text|
  {
    if text == [] then [] else [text[0] % 0x1_0000] + Cut(text[1..])
  }

  lemma {:induction false} PlainIsCut(text: seq<nat>)
    requires AMP !in text
    ensures Decode(text, UNSHIFTED) == Some(Cut(text))
    decreases |text|
  {
    if text != [] {
      PlainIsCut(text[1..]);
    }
  }

  lemma {:induction false} CutIsText(text: seq<nat>)
    requires Scalars(text)
    ensures |Utf16(text)| >= |text|
    ensures Cut(text) == Utf16(text) <==> Narrow(text)
    ensures Narrow(text) ==> ValidUtf16(Cut(text))
    decreases |text|
  {
    if text != [] {
      var rest := text[1..];
      CutIsText(rest);
      assert Narrow(text) <==> text[0] < 0x1_0000 && Narrow(rest) by {
        assert text == [text[0]] + rest;
      }
      assert Cut(text)[1..] == Cut(rest);
      if text[0] < 0x1_0000 {
        assert Utf16(text)[1..] == Utf16(rest);
      }
    }
  }

  /** A text without ampersands is decoded to itself if and only if all its characters have 16 bits. */
  lemma PlainDecodesToItself(text: seq<nat>)
    requires AMP !in text && Scalars(text)
    ensures var units := Decode(text, UNSHIFTED);
      units.Some? && (ValidUtf16(units.value) && units.value == Utf16(text) <==> Narrow(text))
  {
    PlainIsCut(text);
    CutIsText(text);
  }

  /** U+1F600 comes out as U+F600. */
  lemma WideIsCut()
    ensures Decode([0x1F600], UNSHIFTED) == Some([0xF600]) && ValidUtf16([0xF600]) && Utf16([0x1F600]) == [0xD83D, 0xDE00]
  {
    var text, units: seq<Unit> := [0x1F600], [0xF600];
    PlainIsCut(text);
    assert text[1..] == [] && units[1..] == [] && Cut(text) == units;
    assert ValidUtf16([]) && Utf16([]) == [];
  }

  // --------------------------------------------------------- canonical texts

  /** 2 to the number of bits that wait in the decoder, which is even. */
  function Weight(bits: nat): (w: nat)
    ensures w > 0
  {
    match bits
    case 2 => 4
    case 4 => 16
    case 6 => 64
    case 8 => 256
    case 10 => 1024
    case 12 => 4096
    case 14 => 16384
    case _ => 1
  }

  predicate Even(bits: nat) { bits % 2 == 0 && bits < 16 }

  /** The bits that wait. */
  function Waiting(d: Decoder): nat { d.v % Weight(d.bits) }

  /** Outside a stretch: printable ASCII, with `&-` for an ampersand.  Inside: symbols only, for units that are not
      printable ASCII, and at the end fewer than six bits of padding, all zero.  No stretch is empty, left open, or opened
      right behind the end of another (`closed`). */
  predicate Canonical(text: seq<nat>, d: Decoder, closed: bool)
    requires d.bits < 16
    decreases |text|
  {
    if text == [] then !d.shifted
    else
      var ch, rest := text[0], text[1..];
      if d.shifted then
        if ch == DASH then d.bits < 6 && Waiting(d) == 0 && Canonical(rest, UNSHIFTED, true)
        else match Rank(ch)
          case None => false
          case Some(rank) => (d.bits + 6 >= 16 ==> !Direct(Ready(d, rank))) && Canonical(rest, Take(d, rank), false)
      else if ch == AMP then
        rest != [] &&
        if rest[0] == DASH then Canonical(rest[1..], UNSHIFTED, false)
        else !closed && Canonical(rest, OPENED, false)
      else 0x20 <= ch < 0x7F && Canonical(rest, UNSHIFTED, false)
  }

  // ------------------------------------------- what is written is canonical

  lemma CanonicalSymbol(rank: nat, rest: seq<nat>, d: Decoder, closed: bool)
    requires rank < 64 && d.shifted && d.bits < 16
    ensures Canonical([Symbol(rank)] + rest, d, closed) <==>
      (d.bits + 6 >= 16 ==> !Direct(Ready(d, rank))) && Canonical(rest, Take(d, rank), false)
  {
    hide Symbol, Rank, Take, Ready, Waiting;
    SymbolRank(rank);
    assert ([Symbol(rank)] + rest)[1..] == rest;
  }

  lemma CanonicalDash(rest: seq<nat>, d: Decoder, closed: bool)
    requires d.shifted && d.bits < 6 && Waiting(d) == 0
    ensures Canonical([DASH] + rest, d, closed) <==> Canonical(rest, UNSHIFTED, true)
  {
    assert ([DASH] + rest)[1..] == rest;
  }

  lemma CanonicalDirect(ch: Unit, rest: seq<nat>, closed: bool)
    requires Direct(ch)
    ensures Canonical((if ch == AMP then [AMP, DASH] else [ch]) + rest, UNSHIFTED, closed)
       <==> Canonical(rest, UNSHIFTED, false)
  {
    hide Rank, Take, Ready, Waiting;
    if ch == AMP {
      assert ([AMP, DASH] + rest)[1..] == [DASH] + rest && ([DASH] + rest)[1..] == rest;
    } else {
      assert ([ch] + rest)[1..] == rest;
    }
  }

  lemma CanonicalOpen(rank: nat, more: seq<nat>)
    requires rank < 64
    ensures Canonical([AMP] + ([Symbol(rank)] + more), UNSHIFTED, false) <==> Canonical([Symbol(rank)] + more, OPENED, false)
  {
    hide Symbol, Rank, Take, Ready, Waiting;
    SymbolRank(rank);
    assert ([AMP] + ([Symbol(rank)] + more))[1..] == [Symbol(rank)] + more;
  }

  lemma CanonicalThree(s1: nat, s2: nat, s3: nat, rest: seq<nat>, d: Decoder)
    requires s1 < 64 && s2 < 64 && s3 < 64 && d.shifted && 12 <= d.bits < 16 && !Direct(Ready(d, s1))
    ensures var d2 := Take(Take(d, s1), s2);
      Canonical([Symbol(s1), Symbol(s2), Symbol(s3)] + rest, d, false) <==>
        (d2.bits + 6 >= 16 ==> !Direct(Ready(d2, s3))) && Canonical(rest, Take(d2, s3), false)
  {
    hide Canonical, Symbol, Ready, Take, Direct;
    var d1 := Take(d, s1);
    var d2 := Take(d1, s2);
    TakeBits(d, s1);
    TakeBits(d1, s2);
    TakeBits(d2, s3);
    CanonicalSymbol(s1, [Symbol(s2)] + ([Symbol(s3)] + rest), d, false);
    CanonicalSymbol(s2, [Symbol(s3)] + rest, d1, false);
    CanonicalSymbol(s3, rest, d2, false);
    assert [Symbol(s1), Symbol(s2), Symbol(s3)] + rest == [Symbol(s1)] + ([Symbol(s2)] + ([Symbol(s3)] + rest));
  }

  /** The symbols that one more unit completes, when `bits` bits of the unit before, in `u`, come first. */
  function UnitSymbols(ch: Unit, bits: nat, u: nat): seq<nat> {
    if bits == 0 then [Symbol(ch / 1024), Symbol(ch / 16 % 64)]
    else if bits == 4 then [Symbol(u % 16 * 4 + ch / 16384), Symbol(ch / 256 % 64), Symbol(ch / 4 % 64)]
    else [Symbol(u % 4 * 16 + ch / 4096), Symbol(ch / 64 % 64), Symbol(ch % 64)]
  }

  lemma UnitSent(ch: Unit, bits: nat, u: nat)
    requires bits == 0 || bits == 2 || bits == 4
    ensures Groups(Shl(u, 16) + ch, bits + 16) == UnitSymbols(ch, bits, u)
  {
    hide Groups, Shl, Symbol;
    if bits == 0 {
      Sent16(u, ch);
    } else if bits == 4 {
      Sent20(u, ch);
    } else {
      Sent18(u, ch);
    }
  }

  lemma CanonicalUnit(ch: Unit, e: Encoder, d: Decoder, last: Unit, rest: seq<nat>)
    requires !Direct(ch) && e.shifted && InStep(e, d, last) && e.bits < 6 && d.bits < 16
    requires e.bits > 0 ==> !Direct(last)
    ensures Canonical(UnitSymbols(ch, e.bits, e.u) + rest, d, false)
       <==> Canonical(rest, ReadUnit(ch, e.bits, e.u, d), false)
  {
    hide Canonical, Symbol, Ready, Take, Direct;
    if e.bits == 0 {
      CanonicalUnit16(ch, d, rest);
    } else if e.bits == 4 {
      CanonicalUnit20(ch, e.u, d, last, rest);
    } else {
      CanonicalUnit18(ch, e.u, d, last, rest);
    }
  }

  lemma CanonicalUnit16(ch: Unit, d: Decoder, rest: seq<nat>)
    requires d.shifted && d.bits == 0
    ensures Canonical([Symbol(ch / 1024), Symbol(ch / 16 % 64)] + rest, d, false)
       <==> Canonical(rest, Take(Take(d, ch / 1024), ch / 16 % 64), false)
  {
    hide Canonical, Symbol, Ready, Take, Direct;
    var s1, s2 := ch / 1024, ch / 16 % 64;
    TakeBits(d, s1);
    CanonicalSymbol(s1, [Symbol(s2)] + rest, d, false);
    CanonicalSymbol(s2, rest, Take(d, s1), false);
    assert [Symbol(s1), Symbol(s2)] + rest == [Symbol(s1)] + ([Symbol(s2)] + rest);
  }

  lemma CanonicalUnit20(ch: Unit, u: nat, d: Decoder, last: Unit, rest: seq<nat>)
    requires d.shifted && d.bits == 12 && d.v % 4096 == last / 16 && u % 16 == last % 16 && !Direct(last)
    ensures Canonical(UnitSymbols(ch, 4, u) + rest, d, false) <==> Canonical(rest, ReadUnit(ch, 4, u, d), false)
  {
    hide Canonical, Symbol, Ready, Take, Direct;
    var s1, s2, s3 := u % 16 * 4 + ch / 16384, ch / 256 % 64, ch / 4 % 64;
    TakeBits(d, s1);
    TakeBits(Take(d, s1), s2);
    ModIs(s1, 4, u % 16, ch / 16384);
    ReadyAt12(d, s1, last);
    CanonicalThree(s1, s2, s3, rest, d);
  }

  lemma CanonicalUnit18(ch: Unit, u: nat, d: Decoder, last: Unit, rest: seq<nat>)
    requires d.shifted && d.bits == 14 && d.v % 16384 == last / 4 && u % 4 == last % 4
    requires !Direct(last) && !Direct(ch)
    ensures Canonical(UnitSymbols(ch, 2, u) + rest, d, false) <==> Canonical(rest, ReadUnit(ch, 2, u, d), false)
  {
    hide Canonical, Symbol, Ready, Take, Direct;
    var s1, s2, s3 := u % 4 * 16 + ch / 4096, ch / 64 % 64, ch % 64;
    var d1 := Take(d, s1);
    var d2 := Take(d1, s2);
    TakeBits(d, s1);
    TakeBits(d1, s2);
    Low18(ch, u, d, d1, d2);
    ModIs(s1, 16, u % 4, ch / 4096);
    ReadyAt14(d, s1, last);
    ReadyAt10(d2, s3);
    CanonicalThree(s1, s2, s3, rest, d);
  }

  /** The end of a stretch pads with zeros. */
  lemma CanonicalEnd(e: Encoder, d: Decoder, last: Unit, rest: seq<nat>)
    requires e.shifted && InStep(e, d, last) && e.bits < 6 && d.bits < 16 && (e.bits > 0 ==> !Direct(last))
    ensures Canonical(Unshift(e) + rest, d, false) <==> Canonical(rest, UNSHIFTED, true)
  {
    hide Canonical, Shl, Symbol, Ready, Take, Direct;
    if e.bits == 0 {
      CanonicalDash(rest, d, false);
    } else {
      var rank := Shl(e.u, 6 - e.bits) % 64;
      PaddedRank(e.u);
      TakeBits(d, rank);
      TakenLow(d, rank);
      var d' := Take(d, rank);
      if e.bits == 4 {
        ReadyAt12(d, rank, last);
        ModMod(d'.v, 4, 16);
      } else {
        ReadyAt14(d, rank, last);
        ModMod(d'.v, 16, 4);
      }
      CanonicalSymbol(rank, [DASH] + rest, d, false);
      CanonicalDash(rest, d', false);
      assert [Symbol(rank), DASH] + rest == [Symbol(rank)] + ([DASH] + rest);
    }
  }

  lemma CanonicalStep(ch: Unit, e: Encoder, d: Decoder, last: Unit, rest: seq<nat>)
    requires e.bits < 6 && d.bits < 16 && InStep(e, d, last) && (e.bits > 0 ==> !Direct(last)) && !Direct(ch)
    ensures Canonical(Written(ch, e) + rest, d, false)
       <==> Canonical(rest, ReadUnit(ch, e.bits, e.u, if e.shifted then d else OPENED), false)
  {
    hide Canonical, Groups, Shl, ReadUnit, Direct, UnitSymbols;
    var groups := Groups(Shl(e.u, 16) + ch, e.bits + 16);
    UnitSent(ch, e.bits, e.u);
    if e.shifted {
      assert [] + groups == groups;
      CanonicalUnit(ch, e, d, last, rest);
    } else {
      var rank, more := GroupsStart(Shl(e.u, 16) + ch, e.bits + 16);
      CanonicalOpen(rank, more + rest);
      assert [AMP] + groups + rest == [AMP] + ([Symbol(rank)] + (more + rest));
      assert groups + rest == [Symbol(rank)] + (more + rest);
      CanonicalUnit(ch, Encoder(true, 0, e.u), OPENED, last, rest);
    }
  }

  lemma CanonicalDirectStep(ch: Unit, e: Encoder, d: Decoder, last: Unit, rest: seq<nat>)
    requires e.bits < 6 && d.bits < 16 && InStep(e, d, last) && (e.bits > 0 ==> !Direct(last)) && Direct(ch)
    ensures Canonical(Written(ch, e) + rest, d, false) <==> Canonical(rest, UNSHIFTED, false)
  {
    hide Canonical, Unshift, Direct;
    var direct := if ch == AMP then [AMP, DASH] else [ch];
    if e.shifted {
      CanonicalDirect(ch, rest, true);
      CanonicalEnd(e, d, last, direct + rest);
      assert Unshift(e) + direct + rest == Unshift(e) + (direct + rest);
    } else {
      CanonicalDirect(ch, rest, false);
      assert [] + direct == direct;
    }
  }

  lemma CanonicalLast(e: Encoder, d: Decoder, last: Unit)
    requires e.bits < 6 && d.bits < 16 && InStep(e, d, last) && (e.bits > 0 ==> !Direct(last))
    ensures Canonical(if e.shifted then Unshift(e) else [], d, false)
  {
    hide Unshift;
    if e.shifted {
      CanonicalEnd(e, d, last, []);
      assert Unshift(e) + [] == Unshift(e);
    }
  }

  /** What the encoder writes is canonical. */
  lemma {:induction false} EncodedIsCanonical(text: seq<Unit>, e: Encoder, d: Decoder, last: Unit)
    requires e.bits < 6 && d.bits < 16 && InStep(e, d, last) && (e.bits > 0 ==> !Direct(last))
    ensures Canonical(Encode(text, e), d, false)
    decreases |text|
  {
    hide Canonical, Unshift, InStep, Written, Direct, ReadUnit, Decode;
    if text == [] {
      CanonicalLast(e, d, last);
    } else {
      var ch, e' := text[0], After(text[0], e);
      var rest := Encode(text[1..], e');
      if Direct(ch) {
        CanonicalDirectStep(ch, e, d, last, rest);
        DirectStep(ch, e, d, last, rest);
        NothingOwed(ch, e, d, last);
        EncodedIsCanonical(text[1..], e', UNSHIFTED, ch);
      } else {
        CanonicalStep(ch, e, d, last, rest);
        var d', got := ShiftedStep(ch, e, d, last, rest);
        EncodedIsCanonical(text[1..], e', d', ch);
      }
    }
  }

  // --------------------------------------- canonical texts are told apart

  lemma RankSymbol(ch: nat)
    requires Rank(ch).Some?
    ensures Rank(ch).value < 64 && Symbol(Rank(ch).value) == ch
  {
  }

  /** A symbol that completes no unit joins the bits that wait. */
  lemma WaitingMore(d: Decoder, rank: nat)
    requires Even(d.bits) && d.bits + 6 < 16 && rank < 64
    ensures Take(d, rank).shifted && Even(Take(d, rank).bits) && Take(d, rank).bits == d.bits + 6
    ensures Waiting(Take(d, rank)) == Waiting(d) * 64 + rank
  {
    hide Take;
    TakeBits(d, rank);
    TakenLow(d, rank);
    assert d.bits == 0 || d.bits == 2 || d.bits == 4 || d.bits == 6 || d.bits == 8;
  }

  /** How many bits of the unit under way are still to come, as a power of two. */
  function Missing(bits: nat): (w: nat)
    requires Even(bits)
    ensures w > 0 && w * Weight(bits) == 0x1_0000
  {
    assert bits == 0 || bits == 2 || bits == 4 || bits == 6 || bits == 8 || bits == 10 || bits == 12 || bits == 14;
    match bits
    case 2 => 16384
    case 4 => 4096
    case 6 => 1024
    case 8 => 256
    case 10 => 64
    case 12 => 16
    case 14 => 4
    case _ => 65536
  }

  /** A symbol that completes a unit splits into the end of that unit and the bits that wait next. */
  lemma ReadySplits(d: Decoder, rank: nat)
    requires Even(d.bits) && d.bits + 6 >= 16 && rank < 64
    ensures var d' := Take(d, rank);
      && Even(d'.bits) && d'.bits < 6 && d'.bits == d.bits - 10 && Waiting(d') == rank % Weight(d'.bits)
      && Ready(d, rank) == Waiting(d) * Missing(d.bits) + rank / Weight(d'.bits)
      && rank / Weight(d'.bits) < Missing(d.bits)
  {
    hide Take, Ready;
    TakeBits(d, rank);
    assert d.bits == 10 || d.bits == 12 || d.bits == 14;
    if d.bits == 10 {
      ReadyAt10(d, rank);
    } else if d.bits == 12 {
      SplitAt12(d, rank);
    } else {
      SplitAt14(d, rank);
    }
  }

  lemma SplitAt12(d: Decoder, rank: nat)
    requires d.bits == 12 && rank < 64
    ensures Take(d, rank).v % 4 == rank % 4
    ensures Ready(d, rank) == d.v % 4096 * 16 + rank / 4 && rank / 4 < 16
  {
    hide Take, Ready;
    TakenLow(d, rank);
    Gathered(d.v % 4096, 16, rank, 4);
    ReadyAt12(d, rank, d.v % 4096 * 16 + rank / 4);
    ModMod(Take(d, rank).v, 4, 16);
  }

  lemma SplitAt14(d: Decoder, rank: nat)
    requires d.bits == 14 && rank < 64
    ensures Take(d, rank).v % 16 == rank % 16
    ensures Ready(d, rank) == d.v % 16384 * 4 + rank / 16 && rank / 16 < 4
  {
    hide Take, Ready;
    TakenLow(d, rank);
    Gathered(d.v % 16384, 4, rank, 16);
    ReadyAt14(d, rank, d.v % 16384 * 4 + rank / 16);
    ModMod(Take(d, rank).v, 16, 4);
  }

  lemma Gathered(waiting: nat, missing: nat, rank: nat, w: nat)
    requires missing > 0 && w > 0 && rank < 64 && missing * w == 64
    ensures (waiting * missing + rank / w) / missing == waiting && (waiting * missing + rank / w) % missing == rank / w
  {
    QuotientBelow(rank, w, missing);
    ModIs(waiting * missing + rank / w, missing, waiting, rank / w);
  }

  /** The front of the next unit is what waits. */
  lemma FrontOfReady(d: Decoder, rank: nat)
    requires Even(d.bits) && d.bits + 6 >= 16 && rank < 64
    ensures Ready(d, rank) / Missing(d.bits) == Waiting(d)
  {
    hide Ready, Waiting, Missing, Take;
    ReadySplits(d, rank);
    ModIs(Ready(d, rank), Missing(d.bits), Waiting(d), rank / Weight(Take(d, rank).bits));
  }

  lemma FrontOfMore(d: Decoder, rank: nat, unit: Unit)
    requires Even(d.bits) && d.bits + 6 < 16 && rank < 64
    requires Even(Take(d, rank).bits) && unit / Missing(Take(d, rank).bits) == Waiting(Take(d, rank))
    ensures unit / Missing(d.bits) == Waiting(d)
  {
    hide Waiting, Take;
    WaitingMore(d, rank);
    assert d.bits == 0 || d.bits == 2 || d.bits == 4 || d.bits == 6 || d.bits == 8;
    assert unit / Missing(d.bits + 6) / 64 == Waiting(d);
    assert Missing(d.bits) == Missing(d.bits + 6) * 64;
  }

  /** Behind the end of a stretch stands nothing, or a character that stands for itself. */
  lemma AfterEnd(text: seq<nat>)
    requires Canonical(text, UNSHIFTED, true) && Decode(text, UNSHIFTED).Some?
    ensures var units := Decode(text, UNSHIFTED).value;
      units == [] || Direct(units[0])
  {
    hide Take, Ready, Rank, Waiting;
  }

  /** Inside a stretch the units to come tell whether it ends, and if it does not, what waits. */
  lemma {:induction false} UnitsTell(text: seq<nat>, d: Decoder, closed: bool)
    requires d.shifted && Even(d.bits) && Canonical(text, d, closed) && Decode(text, d).Some?
    ensures text != []
    ensures var units := Decode(text, d).value;
      if text[0] == DASH then d.bits < 6 && Waiting(d) == 0 && (units == [] || Direct(units[0]))
      else units != [] && !Direct(units[0]) && units[0] / Missing(d.bits) == Waiting(d)
    decreases |text|
  {
    hide Take, Ready, Waiting, Missing, Direct;
    if text[0] == DASH {
      AfterEnd(text[1..]);
    } else {
      var rank := Rank(text[0]).value;
      RankSymbol(text[0]);
      hide Rank, Symbol;
      if d.bits + 6 >= 16 {
        FrontOfReady(d, rank);
      } else {
        WaitingMore(d, rank);
        UnitsTell(text[1..], Take(d, rank), false);
        FrontOfMore(d, rank, Decode(text, d).value[0]);
      }
    }
  }

  lemma SymbolRead(text: seq<nat>, d: Decoder, closed: bool) returns (rank: nat)
    requires d.shifted && d.bits < 16 && text != [] && text[0] != DASH
    requires Canonical(text, d, closed) && Decode(text, d).Some?
    ensures rank < 64 && text[0] == Symbol(rank) && Canonical(text[1..], Take(d, rank), false)
    ensures Decode(text, d) ==
      if d.bits + 6 >= 16 then Cons(Ready(d, rank), Decode(text[1..], Take(d, rank)))
      else Decode(text[1..], Take(d, rank))
    ensures Decode(text[1..], Take(d, rank)).Some?
  {
    hide Take, Ready, Waiting;
    rank := Rank(text[0]).value;
    RankSymbol(text[0]);
  }

  /** Units that are the same come from the same symbol. */
  lemma SameSymbol(a: seq<nat>, b: seq<nat>, d: Decoder, r: nat, q: nat)
    requires d.shifted && Even(d.bits) && r < 64 && q < 64
    requires Canonical(a, Take(d, r), false) && Canonical(b, Take(d, q), false)
    requires Decode(a, Take(d, r)).Some? && Decode(b, Take(d, q)) == Decode(a, Take(d, r))
    requires d.bits + 6 >= 16 ==> Ready(d, r) == Ready(d, q)
    ensures r == q
  {
    hide Canonical, Decode, Take, Ready, Waiting, Missing, Direct;
    TakeBits(d, r);
    TakeBits(d, q);
    if d.bits + 6 < 16 {
      WaitingMore(d, r);
      WaitingMore(d, q);
      UnitsTell(a, Take(d, r), false);
      UnitsTell(b, Take(d, q), false);
    } else {
      ReadySplits(d, r);
      ReadySplits(d, q);
      UnitsTell(a, Take(d, r), false);
      UnitsTell(b, Take(d, q), false);
      SameSplit(Waiting(d), Missing(d.bits), r, q, Weight(d.bits - 10));
    }
  }

  lemma SameSplit(waiting: nat, missing: nat, r: nat, q: nat, w: nat)
    requires w > 0 && waiting * missing + r / w == waiting * missing + q / w && r % w == q % w
    ensures r == q
  {
    assert r == w * (r / w) + r % w && q == w * (q / w) + q % w;
  }

  /** Outside a stretch the first unit tells how the text goes on. */
  lemma UnitTells(text: seq<nat>, closed: bool)
    requires text != [] && Canonical(text, UNSHIFTED, closed) && Decode(text, UNSHIFTED).Some?
    ensures var units := Decode(text, UNSHIFTED).value;
      && units != []
      && if text[0] != AMP then
           && Direct(units[0]) && units[0] == text[0] && Canonical(text[1..], UNSHIFTED, false)
           && Decode(text[1..], UNSHIFTED) == Some(units[1..])
         else
           && |text| > 1
           && if text[1] == DASH then
                && units[0] == AMP && Canonical(text[2..], UNSHIFTED, false)
                && Decode(text[2..], UNSHIFTED) == Some(units[1..])
              else
                !Direct(units[0]) && Canonical(text[1..], OPENED, false) && Decode(text[1..], OPENED) == Some(units)
  {
    hide Take, Ready, Rank, Waiting;
    if text[0] == AMP && |text| > 1 && text[1] != DASH {
      UnitsTell(text[1..], OPENED, false);
    } else if text[0] == AMP && |text| > 1 {
      assert text[1..][1..] == text[2..];
    }
  }

  /** Two canonical texts that are decoded to the same units are the same. */
  lemma {:induction false} SameText(a: seq<nat>, b: seq<nat>, d: Decoder, closed: bool)
    requires if d.shifted then Even(d.bits) else d == UNSHIFTED
    requires Canonical(a, d, closed) && Canonical(b, d, closed)
    requires Decode(a, d).Some? && Decode(b, d) == Decode(a, d)
    ensures a == b
    decreases |a|
  {
    hide Take, Ready, Waiting, Symbol, Rank, Direct, Canonical, Decode;
    if d.shifted {
      SameInside(a, b, d, closed);
    } else if a == [] || b == [] {
      NothingDecoded(a, b, closed);
    } else {
      UnitTells(a, closed);
      UnitTells(b, closed);
      AmpIsDirect();
      if a[0] != AMP {
        SameText(a[1..], b[1..], UNSHIFTED, false);
        assert a == [a[0]] + a[1..] && b == [b[0]] + b[1..];
      } else if a[1] == DASH {
        SameText(a[2..], b[2..], UNSHIFTED, false);
        assert a == [AMP, DASH] + a[2..] && b == [AMP, DASH] + b[2..];
      } else {
        SameText(a[1..], b[1..], OPENED, false);
        assert a == [AMP] + a[1..] && b == [AMP] + b[1..];
      }
    }
  }

  lemma AmpIsDirect()
    ensures Direct(AMP)
  {
  }

  lemma NothingDecoded(a: seq<nat>, b: seq<nat>, closed: bool)
    requires a == [] || b == []
    requires Canonical(a, UNSHIFTED, closed) && Canonical(b, UNSHIFTED, closed)
    requires Decode(a, UNSHIFTED).Some? && Decode(b, UNSHIFTED) == Decode(a, UNSHIFTED)
    ensures a == b
  {
    assert Decode([], UNSHIFTED) == Some([]);
    hide Canonical, Decode;
    if a != [] {
      UnitTells(a, closed);
    } else if b != [] {
      UnitTells(b, closed);
    }
  }

  lemma EndSeen(text: seq<nat>, d: Decoder, closed: bool)
    requires d.shifted && d.bits < 16 && text != [] && text[0] == DASH && Canonical(text, d, closed)
    ensures Canonical(text[1..], UNSHIFTED, true) && Decode(text, d) == Decode(text[1..], UNSHIFTED)
  {
  }

  lemma {:induction false} SameInside(a: seq<nat>, b: seq<nat>, d: Decoder, closed: bool)
    requires d.shifted && Even(d.bits)
    requires Canonical(a, d, closed) && Canonical(b, d, closed)
    requires Decode(a, d).Some? && Decode(b, d) == Decode(a, d)
    ensures a == b
    decreases |a|, 0
  {
    hide Take, Ready, Waiting, Symbol, Rank, Direct, Missing, Canonical, Decode;
    UnitsTell(a, d, closed);
    UnitsTell(b, d, closed);
    if a[0] == DASH {
      EndSeen(a, d, closed);
      EndSeen(b, d, closed);
      SameText(a[1..], b[1..], UNSHIFTED, true);
    } else {
      var r := SymbolRead(a, d, closed);
      var q := SymbolRead(b, d, closed);
      if d.bits + 6 >= 16 {
        ConsSame(Ready(d, r), Decode(a[1..], Take(d, r)), Ready(d, q), Decode(b[1..], Take(d, q)));
      }
      SameSymbol(a[1..], b[1..], d, r, q);
      EvenTake(d, r);
      SameText(a[1..], b[1..], Take(d, r), false);
    }
    assert a == [a[0]] + a[1..] && b == [b[0]] + b[1..];
  }

  lemma EvenTake(d: Decoder, rank: nat)
    requires Even(d.bits)
    ensures Even(Take(d, rank).bits) && Take(d, rank).shifted
  {
  }

  lemma ConsSame(x: Unit, a: Option<seq<Unit>>, y: Unit, b: Option<seq<Unit>>)
    ensures Cons(x, a).Some? && Cons(x, a) == Cons(y, b) ==> x == y && a == b
  {
    if Cons(x, a).Some? && Cons(x, a) == Cons(y, b) {
      assert ([x] + a.value)[0] == x && ([x] + a.value)[1..] == a.value;
      assert ([y] + b.value)[0] == y && ([y] + b.value)[1..] == b.value;
    }
  }

  /** `utf7_encode(utf7_decode(text))` is `text` for canonical texts, and for no others that are accepted; whatever bits
      an encoder outside a stretch has left over. */
  lemma WrittenOfRead(text: seq<nat>, units: seq<Unit>, e: Encoder)
    requires Decode(text, UNSHIFTED) == Some(units) && !e.shifted && e.bits == 0
    ensures Encode(units, e) == text <==> Canonical(text, UNSHIFTED, false)
  {
    hide Canonical, Encode, Decode;
    var written := Encode(units, e);
    EncodedIsCanonical(units, e, UNSHIFTED, 0);
    ReadBack(units, e, UNSHIFTED, 0);
    assert Lagging(e, 0) + units == units;
    if Canonical(text, UNSHIFTED, false) {
      SameText(text, written, UNSHIFTED, false);
    }
  }
}
