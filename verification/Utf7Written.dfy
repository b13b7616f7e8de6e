/** What encoded names look like on the wire: section 5.1.3 of RFC 3501 as a definition of its own, which the encoder
    meets for every text, and the name that the section gives as its example. */
module Utf7Written {
  import opened Wrappers
  import opened Modular
  import opened Sequences
  import opened Utf7

  const UPPER: string := "ABCDEFGHIJKLMNOPQRSTUVWXYZ"
  const LOWER: string := "abcdefghijklmnopqrstuvwxyz"
  const DIGITS: string := "0123456789"

  /** The character for six bits: the BASE64 alphabet with a comma in place of the slash. */
  function Character(six: nat): char
    requires six < 64
  {
    if six < 26 then UPPER[six] else if six < 52 then LOWER[six - 26] else if six < 62 then DIGITS[six - 52]
    else if six == 62 then '+' else ','
  }

  /** The bytes of a text in ASCII. */
  function Ascii(text: string): seq<nat> {
    if text == "" then [] else [text[0] as int] + Ascii(text[1..])
  }

  // ---------------------------------------------------------- the specification

  predicate Represents(ch: Unit) { ' ' as int <= ch <= '~' as int }

  /** Sixteen bits a unit, six bits a character, padded with zeros. */
  function Base64(units: seq<Unit>): string {
    if units == [] then ""
    else
      var a := units[0];
      var first := [Character(a / 1024), Character(a / 16 % 64)];
      if |units| == 1 then first + [Character(a % 16 * 4)]
      else
        var b := units[1];
        var second := [Character(a % 16 * 4 + b / 16384), Character(b / 256 % 64), Character(b / 4 % 64)];
        if |units| == 2 then first + second + [Character(b % 4 * 16)]
        else
          var c := units[2];
          first + second + [Character(b % 4 * 16 + c / 4096), Character(c / 64 % 64), Character(c % 64)] + Base64(units[3..])
  }

  /** How many units in a row do not represent themselves. */
  function Stretch(text: seq<Unit>): (n: nat)
    ensures n <= |text| && (n == |text| || Represents(text[n])) && forall i :: 0 <= i < n ==> !Represents(text[i])
  {
    if text == [] || Represents(text[0]) then 0 else 1 + Stretch(text[1..])
  }

  function Specified(text: seq<Unit>): string
    decreases |text|
  {
    if text == [] then ""
    else if text[0] == '&' as int then "&-" + Specified(text[1..])
    else if Represents(text[0]) then [text[0] as char] + Specified(text[1..])
    else "&" + (Base64(text[..Stretch(text)]) + ("-" + Specified(text[Stretch(text)..])))
  }

  // ------------------------------------------------------------- the alphabet

  lemma LettersInOrder(i: nat)
    requires i < 26
    ensures UPPER[i] as int == 'A' as int + i && LOWER[i] as int == 'a' as int + i
  {
  }

  lemma DigitsInOrder(i: nat)
    requires i < 10
    ensures DIGITS[i] as int == '0' as int + i
  {
  }

  /** The symbols are the characters of the alphabet, and nothing else has a rank. */
  lemma SymbolIsCharacter(rank: nat)
    requires rank < 64
    ensures Symbol(rank) == Character(rank) as int && Rank(Character(rank) as int) == Some(rank)
  {
    if rank < 26 {
      LettersInOrder(rank);
    } else if rank < 52 {
      LettersInOrder(rank - 26);
    } else if rank < 62 {
      DigitsInOrder(rank - 52);
    }
  }

  lemma RankedIsCharacter(ch: nat)
    ensures Rank(ch).Some? ==> Rank(ch).value < 64 && ch == Character(Rank(ch).value) as int
  {
    if Rank(ch).Some? {
      SymbolIsCharacter(Rank(ch).value);
    }
  }

  // ----------------------------------------------- the encoder meets it

  lemma AsciiFirst(s: string)
    requires s != ""
    ensures Ascii(s) == [s[0] as int] + Ascii(s[1..])
  {
  }

  lemma {:induction false} AsciiJoined(a: string, b: string)
    ensures Ascii(a + b) == Ascii(a) + Ascii(b)
  {
    if a == "" {
      AsciiOfNothing();
      hide Ascii;
      assert a + b == b && [] + Ascii(b) == Ascii(b);
    } else {
      hide Ascii;
      var all := a + b;
      AsciiJoined(a[1..], b);
      assert all[0] == a[0] && all[1..] == a[1..] + b;
      AsciiFirst(all);
      AsciiFirst(a);
      Associate([a[0] as int], Ascii(a[1..]), Ascii(b));
    }
  }

  lemma AsciiOf(s: string)
    ensures |s| == 1 ==> Ascii(s) == [s[0] as int]
    ensures |s| == 2 ==> Ascii(s) == [s[0] as int, s[1] as int]
    ensures |s| == 3 ==> Ascii(s) == [s[0] as int, s[1] as int, s[2] as int]
  {
    if |s| >= 2 {
      assert s[1..][0] == s[1] && |s[1..]| == |s| - 1;
    }
    if |s| == 3 {
      assert s[1..][1..][0] == s[2];
    }
  }

  lemma Send16(u: nat, a: Unit)
    ensures Groups(Shl(u, 16) + a, 16) == Ascii([Character(a / 1024), Character(a / 16 % 64)])
  {
    hide Shl, Groups, Symbol, Character, Ascii;
    Sent16(u, a);
    SymbolIsCharacter(a / 1024);
    SymbolIsCharacter(a / 16 % 64);
    AsciiOf([Character(a / 1024), Character(a / 16 % 64)]);
  }

  lemma Send20(u: nat, a: Unit, b: Unit)
    requires u % 16 == a % 16
    ensures Groups(Shl(u, 16) + b, 20)
         == Ascii([Character(a % 16 * 4 + b / 16384), Character(b / 256 % 64), Character(b / 4 % 64)])
  {
    hide Shl, Groups, Symbol, Character, Ascii;
    Sent20(u, b);
    SymbolIsCharacter(a % 16 * 4 + b / 16384);
    SymbolIsCharacter(b / 256 % 64);
    SymbolIsCharacter(b / 4 % 64);
    AsciiOf([Character(a % 16 * 4 + b / 16384), Character(b / 256 % 64), Character(b / 4 % 64)]);
  }

  lemma Send18(u: nat, b: Unit, c: Unit)
    requires u % 4 == b % 4
    ensures Groups(Shl(u, 16) + c, 18)
         == Ascii([Character(b % 4 * 16 + c / 4096), Character(c / 64 % 64), Character(c % 64)])
  {
    hide Shl, Groups, Symbol, Character, Ascii;
    Sent18(u, c);
    SymbolIsCharacter(b % 4 * 16 + c / 4096);
    SymbolIsCharacter(c / 64 % 64);
    SymbolIsCharacter(c % 64);
    AsciiOf([Character(b % 4 * 16 + c / 4096), Character(c / 64 % 64), Character(c % 64)]);
  }

  lemma AsciiOfNothing()
    ensures Ascii("") == []
  {
  }

  /** What pads the bits that are left over at the end of a stretch. */
  function Padding(bits: nat, last: Unit): string
    requires bits < 6
  {
    if bits == 4 then [Character(last % 16 * 4)] else if bits == 2 then [Character(last % 4 * 16)] else ""
  }

  lemma UnshiftIs(e: Encoder, last: Unit)
    requires (e.bits == 0 || e.bits == 2 || e.bits == 4) && e.u % 16 == last % 16
    ensures Unshift(e) == Ascii(Padding(e.bits, last)) + ['-' as int]
  {
    hide Shl, Symbol, Character, Ascii;
    PaddedRank(e.u);
    ModMod(e.u, 4, 4);
    ModMod(last, 4, 4);
    if e.bits > 0 {
      SymbolIsCharacter(if e.bits == 4 then last % 16 * 4 else last % 4 * 16);
      AsciiOf(Padding(e.bits, last));
    }
    AsciiOfNothing();
  }

  /** The end of a stretch: where the text goes on with what represents itself, the encoder first closes the stretch. */
  lemma StretchEnds(rest: seq<Unit>, e: Encoder)
    requires e.shifted && e.bits < 6 && (rest == [] || Represents(rest[0]))
    ensures Encode(rest, e) == Unshift(e) + Encode(rest, Encoder(false, 0, e.u))
  {
    hide Shl, Groups, Unshift;
    var plain := Encoder(false, 0, e.u);
    if rest == [] {
      assert Unshift(e) + [] == Unshift(e);
    } else {
      assert Direct(rest[0]) && After(rest[0], e) == plain && After(rest[0], plain) == plain;
      hide After;
      assert [] + Written(rest[0], plain) == Written(rest[0], plain);
      assert Written(rest[0], e) == Unshift(e) + Written(rest[0], plain);
      Associate(Unshift(e), Written(rest[0], plain), Encode(rest[1..], plain));
    }
  }

  lemma StretchFirst(ch: Unit, more: seq<Unit>, e: Encoder)
    requires e.shifted && e.bits < 6 && !Represents(ch)
    ensures Encode([ch] + more, e) == Groups(Shl(e.u, 16) + ch, e.bits + 16) + Encode(more, After(ch, e))
    ensures After(ch, e) == Encoder(true, (e.bits + 16) % 6, Shl(e.u, 16) + ch)
  {
    hide Shl, Groups, After, Written, Encode;
    var text := [ch] + more;
    assert text[0..] == text && text[1..] == more && text[0] == ch;
    EncodeFirst(text, 0, e);
    WrittenShifted(ch, e);
    LeftoverSmall(e.bits + 16);
    AfterShifted(ch, e);
  }

  lemma WrittenShifted(ch: Unit, e: Encoder)
    requires e.shifted && e.bits < 6 && !Represents(ch)
    ensures Written(ch, e) == Groups(Shl(e.u, 16) + ch, e.bits + 16)
  {
    hide Shl, Groups;
    assert [] + Groups(Shl(e.u, 16) + ch, e.bits + 16) == Groups(Shl(e.u, 16) + ch, e.bits + 16);
  }

  lemma AfterShifted(ch: Unit, e: Encoder)
    requires e.bits < 6 && !Represents(ch)
    ensures After(ch, e) == Encoder(true, Leftover(e.bits + 16), Shl(e.u, 16) + ch)
  {
    hide Shl, Leftover;
  }

  /** Behind a first part of the characters of a stretch, the rest of them. */
  lemma Onward(first: string, second: string, rest: seq<nat>)
    ensures Ascii(first) + (Ascii(second) + rest) == Ascii(first + second) + rest
  {
    hide Ascii;
    AsciiJoined(first, second);
    Associate(Ascii(first), Ascii(second), rest);
  }

  /** What is left of the last unit, the dash, and the text that goes on. */
  lemma Closes(rest: seq<Unit>, e: Encoder, last: Unit)
    requires e.shifted && (e.bits == 0 || e.bits == 2 || e.bits == 4) && e.u % 16 == last % 16
    requires rest == [] || Represents(rest[0])
    ensures Encode(rest, e) == Ascii(Padding(e.bits, last)) + (['-' as int] + Encode(rest, Encoder(false, 0, e.u)))
  {
    hide Encode, Unshift, Ascii, Padding;
    StretchEnds(rest, e);
    UnshiftIs(e, last);
    Associate(Ascii(Padding(e.bits, last)), ['-' as int], Encode(rest, Encoder(false, 0, e.u)));
  }

  function First(a: Unit): string { [Character(a / 1024), Character(a / 16 % 64)] }

  function Second(a: Unit, b: Unit): string {
    [Character(a % 16 * 4 + b / 16384), Character(b / 256 % 64), Character(b / 4 % 64)]
  }

  function Third(b: Unit, c: Unit): string {
    [Character(b % 4 * 16 + c / 4096), Character(c / 64 % 64), Character(c % 64)]
  }

  /** One unit, two, and three of a stretch. */
  lemma OneSent(a: Unit, more: seq<Unit>, u: nat)
    requires !Represents(a)
    ensures var w := Shl(u, 16) + a;
      Encode([a] + more, Encoder(true, 0, u)) == Ascii(First(a)) + Encode(more, Encoder(true, 4, w)) && w % 16 == a % 16
  {
    hide Shl, Groups, Encode, After, Ascii;
    StretchFirst(a, more, Encoder(true, 0, u));
    Send16(u, a);
    LowBits(u, a);
  }

  lemma TwoSent(a: Unit, b: Unit, more: seq<Unit>, u: nat) returns (w: nat)
    requires !Represents(a) && !Represents(b)
    ensures Encode([a, b] + more, Encoder(true, 0, u)) == Ascii(First(a) + Second(a, b)) + Encode(more, Encoder(true, 2, w))
    ensures w % 16 == b % 16
  {
    hide Shl, Groups, Encode, After, Ascii, First, Second;
    var v := Shl(u, 16) + a;
    w := Shl(v, 16) + b;
    assert [a, b] + more == [a] + ([b] + more);
    OneSent(a, [b] + more, u);
    StretchFirst(b, more, Encoder(true, 4, v));
    SecondSent(v, a, b);
    LowBits(v, b);
    Onward(First(a), Second(a, b), Encode(more, Encoder(true, 2, w)));
  }

  lemma SecondSent(v: nat, a: Unit, b: Unit)
    requires v % 16 == a % 16
    ensures Groups(Shl(v, 16) + b, 20) == Ascii(Second(a, b))
  {
    hide Shl, Groups, Ascii;
    Send20(v, a, b);
  }

  lemma ThirdSent(v: nat, b: Unit, c: Unit)
    requires v % 16 == b % 16
    ensures Groups(Shl(v, 16) + c, 18) == Ascii(Third(b, c))
  {
    hide Shl, Groups, Ascii;
    ModMod(v, 4, 4);
    ModMod(b, 4, 4);
    Send18(v, b, c);
  }

  lemma ThreeSent(a: Unit, b: Unit, c: Unit, more: seq<Unit>, u: nat) returns (w: nat)
    requires !Represents(a) && !Represents(b) && !Represents(c)
    ensures Encode([a, b, c] + more, Encoder(true, 0, u))
         == Ascii(First(a) + Second(a, b) + Third(b, c)) + Encode(more, Encoder(true, 0, w))
  {
    hide Shl, Groups, Encode, After, Ascii, First, Second, Third;
    assert [a, b, c] + more == [a, b] + ([c] + more);
    var v := TwoSent(a, b, [c] + more, u);
    w := Shl(v, 16) + c;
    StretchFirst(c, more, Encoder(true, 2, v));
    ThirdSent(v, b, c);
    Onward(First(a) + Second(a, b), Third(b, c), Encode(more, Encoder(true, 0, w)));
  }

  /** The last unit or two of a stretch, or none. */
  lemma EndWritten(units: seq<Unit>, rest: seq<Unit>, u: nat) returns (u': nat)
    requires |units| < 3 && forall i :: 0 <= i < |units| ==> !Represents(units[i])
    requires rest == [] || Represents(rest[0])
    ensures Encode(units + rest, Encoder(true, 0, u)) == Ascii(Base64(units)) + (['-' as int] + Encode(rest, Encoder(false, 0, u')))
  {
    hide Encode, Ascii, Character, Represents, Shl, First, Second, Padding, Base64;
    Base64Ends(units);
    if units == [] {
      u' := u;
      assert units + rest == rest;
      Closes(rest, Encoder(true, 0, u), u % 16);
    } else if |units| == 1 {
      var a := units[0];
      u' := Shl(u, 16) + a;
      assert units == [a];
      OneSent(a, rest, u);
      Closes(rest, Encoder(true, 4, u'), a);
      Onward(First(a), Padding(4, a), ['-' as int] + Encode(rest, Encoder(false, 0, u')));
    } else {
      var a, b := units[0], units[1];
      assert units == [a, b];
      u' := TwoSent(a, b, rest, u);
      Closes(rest, Encoder(true, 2, u'), b);
      Onward(First(a) + Second(a, b), Padding(2, b), ['-' as int] + Encode(rest, Encoder(false, 0, u')));
    }
  }

  lemma Base64Ends(units: seq<Unit>)
    ensures units == [] ==> forall last :: Base64(units) == Padding(0, last)
    ensures |units| == 1 ==> Base64(units) == First(units[0]) + Padding(4, units[0])
    ensures |units| == 2 ==> Base64(units) == First(units[0]) + Second(units[0], units[1]) + Padding(2, units[1])
  {
    hide Character;
  }

  lemma Base64Goes(units: seq<Unit>)
    requires |units| >= 3
    ensures Base64(units) == First(units[0]) + Second(units[0], units[1]) + Third(units[1], units[2]) + Base64(units[3..])
  {
    hide Character;
  }

  /** A whole stretch, from its first unit on. */
  lemma {:induction false} StretchWritten(units: seq<Unit>, rest: seq<Unit>, u: nat) returns (u': nat)
    requires forall i :: 0 <= i < |units| ==> !Represents(units[i])
    requires rest == [] || Represents(rest[0])
    ensures Encode(units + rest, Encoder(true, 0, u)) == Ascii(Base64(units)) + (['-' as int] + Encode(rest, Encoder(false, 0, u')))
    decreases |units|
  {
    hide Encode, Ascii, Character, Represents, First, Second, Third, Base64;
    if |units| < 3 {
      u' := EndWritten(units, rest, u);
    } else {
      var a, b, c := units[0], units[1], units[2];
      var w := ThreeSent(a, b, c, units[3..] + rest, u);
      assert units + rest == [a, b, c] + (units[3..] + rest);
      u' := StretchWritten(units[3..], rest, w);
      Base64Goes(units);
      Onward(First(a) + Second(a, b) + Third(b, c), Base64(units[3..]), ['-' as int] + Encode(rest, Encoder(false, 0, u')));
    }
  }

  lemma Opens(text: seq<Unit>, u: nat)
    requires text != [] && !Represents(text[0])
    ensures Encode(text, Encoder(false, 0, u)) == ['&' as int] + Encode(text, Encoder(true, 0, u))
  {
    hide Shl, Groups;
    var e := Encoder(true, 0, u);
    assert After(text[0], Encoder(false, 0, u)) == After(text[0], e) && Written(text[0], Encoder(false, 0, u)) == ['&' as int] + Written(text[0], e);
    hide After, Written;
    Associate(['&' as int], Written(text[0], e), Encode(text[1..], After(text[0], e)));
  }

  lemma OwnByte(text: seq<Unit>, u: nat)
    requires text != [] && Represents(text[0])
    ensures Encode(text, Encoder(false, 0, u)) ==
      Ascii(if text[0] == '&' as int then "&-" else [text[0] as char]) + Encode(text[1..], Encoder(false, 0, u))
  {
    hide Shl, Groups, Ascii, Unshift;
    var (ch, plain) := (text[0], Encoder(false, 0, u));
    assert After(ch, plain) == plain && Written(ch, plain) == if ch == '&' as int then ['&' as int, '-' as int] else [ch];
    hide After, Written;
    AsciiOf("&-");
    AsciiOf([ch as char]);
  }

  /** Every text is written as the section says. */
  lemma {:induction false} WrittenAsSpecified(text: seq<Unit>, u: nat)
    ensures Encode(text, Encoder(false, 0, u)) == Ascii(Specified(text))
    decreases |text|
  {
    hide Encode, Ascii, Base64;
    if text == [] {
      NothingWritten(u);
    } else if Represents(text[0]) {
      OwnByte(text, u);
      WrittenAsSpecified(text[1..], u);
      AsciiJoined(if text[0] == '&' as int then "&-" else [text[0] as char], Specified(text[1..]));
    } else {
      var n := Stretch(text);
      var units, rest := text[..n], text[n..];
      assert units + rest == text;
      Opens(text, u);
      var u' := StretchWritten(units, rest, u);
      WrittenAsSpecified(rest, u');
      AsciiOf("&");
      AsciiOf("-");
      AsciiJoined("-", Specified(rest));
      AsciiJoined(Base64(units), "-" + Specified(rest));
      AsciiJoined("&", Base64(units) + ("-" + Specified(rest)));
    }
  }

  lemma NothingWritten(u: nat)
    ensures Encode([], Encoder(false, 0, u)) == Ascii("")
  {
  }

  // ---------------------------------------------------------------- the example

  /** Characters that represent themselves. */
  predicate Plain(s: string) { forall i :: 0 <= i < |s| ==> ' ' <= s[i] <= '~' && s[i] != '&' }

  function Codes(s: string): seq<Unit>
    requires Plain(s)
  {
    seq(|s|, i requires 0 <= i < |s| => s[i] as int)
  }

  lemma OwnSpecified(text: seq<Unit>)
    requires text != [] && Represents(text[0]) && text[0] != '&' as int
    ensures Specified(text) == [text[0] as char] + Specified(text[1..])
  {
    hide Base64;
  }

  lemma {:induction false} PlainSpecified(s: string, rest: seq<Unit>)
    requires Plain(s)
    ensures Specified(Codes(s) + rest) == s + Specified(rest)
  {
    hide Specified;
    var text := Codes(s) + rest;
    if s == "" {
      assert text == rest && s + Specified(rest) == Specified(rest);
    } else {
      PlainSpecified(s[1..], rest);
      assert Codes(s)[1..] == Codes(s[1..]) && text[0] == s[0] as int;
      assert text[1..] == Codes(s[1..]) + rest;
      OwnSpecified(text);
      Associate([s[0]], s[1..], Specified(rest));
      assert s == [s[0]] + s[1..];
    }
  }

  lemma StretchSpecified(units: seq<Unit>, rest: seq<Unit>)
    requires units != [] && (forall i :: 0 <= i < |units| ==> !Represents(units[i])) && (rest == [] || Represents(rest[0]))
    ensures Specified(units + rest) == "&" + (Base64(units) + ("-" + Specified(rest)))
  {
    hide Base64;
    var text := units + rest;
    assert text[0] == units[0] && text[|units|..] == rest && text[..|units|] == units;
    assert Stretch(text) == |units|;
  }

  const TAIPEI: seq<Unit> := [0x53F0, 0x5317]
  const JAPANESE: seq<Unit> := [0x65E5, 0x672C, 0x8A9E]

  lemma Letters()
    ensures Character(20) == 'U' && Character(63) == ',' && Character(1) == 'B' && Character(19) == 'T' && Character(5) == 'F'
    ensures Character(48) == 'w' && Character(25) == 'Z' && Character(30) == 'e' && Character(21) == 'V'
    ensures Character(39) == 'n' && Character(11) == 'L' && Character(8) == 'I' && Character(42) == 'q'
  {
  }

  lemma CharactersOfTaipei()
    ensures Base64(TAIPEI) == "U,BTFw"
  {
    hide Base64;
    Letters();
    SplitTaipei();
    Base64Ends(TAIPEI);
    hide Character, First, Second, Padding;
    assert "U," + "BTF" + "w" == "U,BTFw";
  }

  lemma CharactersOfJapanese()
    ensures Base64(JAPANESE) == "ZeVnLIqe"
  {
    hide Base64;
    Letters();
    SplitJapanese();
    Base64Goes(JAPANESE);
    Base64OfNothing();
    hide Character, First, Second, Third;
    assert JAPANESE[3..] == [] && "Ze" + "VnL" + "Iqe" + "" == "ZeVnLIqe";
  }

  lemma Base64OfNothing()
    ensures Base64([]) == ""
  {
  }

  lemma SplitTaipei()
    ensures var (a, b) := (TAIPEI[0], TAIPEI[1]);
      First(a) == [Character(20), Character(63)] && Second(a, b) == [Character(1), Character(19), Character(5)]
      && Padding(2, b) == [Character(48)]
  {
    hide Character;
  }

  lemma SplitJapanese()
    ensures var (a, b, c) := (JAPANESE[0], JAPANESE[1], JAPANESE[2]);
      First(a) == [Character(25), Character(30)] && Second(a, b) == [Character(21), Character(39), Character(11)]
      && Third(b, c) == [Character(8), Character(42), Character(30)]
  {
    hide Character;
  }

  /** A name that mixes English with the names of Taipei and of Japanese. */
  function Name(): seq<Unit> { Codes("~peter/mail/") + (TAIPEI + (Codes("/") + (JAPANESE + []))) }

  lemma NameSpecified()
    ensures Specified(Name()) == "~peter/mail/&U,BTFw-/&ZeVnLIqe-"
  {
    hide Base64, Specified;
    CharactersOfTaipei();
    CharactersOfJapanese();
    StretchSpecified(JAPANESE, []);
    PlainSpecified("/", JAPANESE + []);
    assert (Codes("/") + (JAPANESE + []))[0] == '/' as int;
    StretchSpecified(TAIPEI, Codes("/") + (JAPANESE + []));
    PlainSpecified("~peter/mail/", TAIPEI + (Codes("/") + (JAPANESE + [])));
    NothingSpecified();
  }

  lemma NothingSpecified()
    ensures Specified([]) == ""
  {
  }

  /** `utf7_encode` and `utf7_decode` on it. */
  method Example() returns (written: seq<nat>, r: Option<seq<Unit>>)
    ensures written == Ascii("~peter/mail/&U,BTFw-/&ZeVnLIqe-") && r == Some(Name())
  {
    hide Name, Ascii, Encode, Decode, ValidUtf16;
    NameSpecified();
    NameValid();
    WrittenAsSpecified(Name(), 0);
    RoundTrip(Name());
    written := EncodeText(Name());
    r := DecodeText(written);
  }

  lemma {:induction false} ValidJoined(a: seq<Unit>, b: seq<Unit>)
    requires forall i :: 0 <= i < |a| ==> !(0xD800 <= a[i] < 0xE000)
    requires ValidUtf16(b)
    ensures ValidUtf16(a + b)
  {
    if a == [] {
      assert a + b == b;
    } else {
      ValidJoined(a[1..], b);
      assert (a + b)[1..] == a[1..] + b;
    }
  }

  lemma NameValid()
    ensures ValidUtf16(Name())
  {
    ValidJoined(Name(), []);
    assert Name() + [] == Name();
  }
}
