/** Glob patterns: the compiler of the escape syntax, the matcher that only ever goes back
    to the last star, and the sets and maps that keep patterns without wildcards in a hash
    table (utils/src/glob.rs, without lower-casing, as the sets and maps call it). */
module Glob {
  import opened Wrappers

  datatype PatternChar = WildcardMany(num: nat) | WildcardSingle | Char(c: char)

  // ------------------------------------------------------- what a pattern means

  /** The language of a compiled pattern: a star stands for any stretch of characters. */
  ghost predicate InLanguage(pattern: seq<PatternChar>, value: string)
    decreases |pattern|
  {
    if pattern == [] then value == ""
    else match pattern[0]
      case WildcardMany(_) => exists k :: 0 <= k <= |value| && InLanguage(pattern[1..], value[k..])
      case WildcardSingle => value != "" && InLanguage(pattern[1..], value[1..])
      case Char(c) => value != "" && value[0] == c && InLanguage(pattern[1..], value[1..])
  }

  /** A star matches whatever it matches from a later start. */
  lemma StarAbsorbs(pattern: seq<PatternChar>, value: string, k: nat)
    requires pattern != [] && pattern[0].WildcardMany? && k <= |value|
    requires InLanguage(pattern, value[k..])
    ensures InLanguage(pattern, value)
  {
    var j :| 0 <= j <= |value[k..]| && InLanguage(pattern[1..], value[k..][j..]);
    assert value[k..][j..] == value[k + j..];
  }

  ghost predicate StarFree(pattern: seq<PatternChar>) {
    forall i :: 0 <= i < |pattern| ==> !pattern[i].WildcardMany?
  }

  /** Between stars the match is rigid: a star-free stretch takes exactly its own length. */
  lemma {:induction false} RigidStretch(pattern: seq<PatternChar>, n: nat, value: string)
    requires n <= |pattern| && StarFree(pattern[..n]) && InLanguage(pattern, value)
    ensures n <= |value| && InLanguage(pattern[n..], value[n..])
    decreases n
  {
    if n > 0 {
      assert pattern[..n][0] == pattern[0];
      assert pattern[1..][..n - 1] == pattern[..n][1..];
      RigidStretch(pattern[1..], n - 1, value[1..]);
      assert pattern[1..][n - 1..] == pattern[n..] && value[1..][n - 1..] == value[n..];
    }
  }

  lemma StarMatches(pattern: seq<PatternChar>, s: nat, value: string, from: nat) returns (k: nat)
    requires s < |pattern| && pattern[s].WildcardMany? && from <= |value|
    requires InLanguage(pattern[s..], value[from..])
    ensures from + k <= |value| && InLanguage(pattern[s + 1..], value[from + k..])
  {
    var tail := pattern[s..];
    k :| 0 <= k <= |value[from..]| && InLanguage(tail[1..], value[from..][k..]);
    assert tail[1..] == pattern[s + 1..] && value[from..][k..] == value[from + k..];
  }

  /** Why one star to go back to is enough.  Behind star `s` (which may start anywhere from `from` on) lies a
      star-free stretch that ends at star `p`; if the attempt that starts at `from` has reached `p`, it has done so
      as early as any later attempt could, and star `p` makes up for the rest. */
  lemma LastStarSuffices(pattern: seq<PatternChar>, s: nat, p: nat, value: string, from: nat)
    requires s < p < |pattern| && pattern[s].WildcardMany? && pattern[p].WildcardMany?
    requires StarFree(pattern[s + 1..p]) && from + (p - s - 1) <= |value|
    requires InLanguage(pattern[s..], value[from..])
    ensures InLanguage(pattern[p..], value[from + (p - s - 1)..])
  {
    hide InLanguage;
    var n := p - s - 1;
    var k := StarMatches(pattern, s, value, from);
    assert pattern[s + 1..][..n] == pattern[s + 1..p];
    RigidStretch(pattern[s + 1..], n, value[from + k..]);
    assert pattern[s + 1..][n..] == pattern[p..] && value[from + k..][n..] == value[from + k + n..];
    assert value[from + n..][k..] == value[from + k + n..];
    StarAbsorbs(pattern[p..], value[from + n..], k);
  }

  // ------------------------------------------------------------- the matcher

  /** What a star leaves to try: the star again, one character further on. */
  lemma StarUnfolds(pattern: seq<PatternChar>, p: nat, value: string, n: nat)
    requires p < |pattern| && pattern[p].WildcardMany? && n <= |value|
    ensures InLanguage(pattern[p..], value[n..]) <==>
      InLanguage(pattern[p + 1..], value[n..]) || (n < |value| && InLanguage(pattern[p..], value[n + 1..]))
  {
    assert pattern[p..][1..] == pattern[p + 1..];
    if InLanguage(pattern[p..], value[n..]) {
      var k :| 0 <= k <= |value[n..]| && InLanguage(pattern[p..][1..], value[n..][k..]);
      if k == 0 {
        assert value[n..][0..] == value[n..];
      } else {
        assert value[n..][k..] == value[n + 1..][k - 1..];
      }
    }
    if InLanguage(pattern[p + 1..], value[n..]) {
      assert value[n..][0..] == value[n..];
    }
    if n < |value| && InLanguage(pattern[p..], value[n + 1..]) {
      assert value[n + 1..] == value[n..][1..];
      StarAbsorbs(pattern[p..], value[n..], 1);
    }
  }

  /** The other attempt that is still open: from the last star, `nextNx` on. */
  ghost predicate Resume(pattern: seq<PatternChar>, value: string, nextPx: nat, nextNx: nat) {
    0 < nextNx <= |value| && nextPx <= |pattern| && InLanguage(pattern[nextPx..], value[nextNx..])
  }

  /** How the loop's four indices hang together. */
  ghost predicate Indices(pattern: seq<PatternChar>, value: string, px: nat, nx: nat, nextPx: nat, nextNx: nat) {
    && px <= |pattern| && nx <= |value| && nextNx <= |value| + 1
    && (nextNx == 0 ==> nextPx == 0 && StarFree(pattern[..px]))
    && (nextNx > 0 ==>
          && nextPx <= px && nextPx < |pattern| && pattern[nextPx].WildcardMany?
          && (px == nextPx ==> nx == nextNx)
          && (px > nextPx ==> StarFree(pattern[nextPx + 1..px]) && nx == nextNx - 1 + (px - nextPx - 1)))
  }

  lemma MoveOn(pattern: seq<PatternChar>, value: string, px: nat, nx: nat, nextPx: nat, nextNx: nat)
    requires Indices(pattern, value, px, nx, nextPx, nextNx) && px < |pattern| && !pattern[px].WildcardMany?
    ensures nx < |value| ==> Indices(pattern, value, px + 1, nx + 1, nextPx, nextNx)
    ensures InLanguage(pattern[px..], value[nx..]) <==>
      nx < |value| && (pattern[px].Char? ==> pattern[px].c == value[nx]) && InLanguage(pattern[px + 1..], value[nx + 1..])
  {
    assert pattern[px..][1..] == pattern[px + 1..];
    if nx < |value| {
      assert value[nx..][1..] == value[nx + 1..];
    }
    StarFreeGrows(pattern, if nextNx > 0 then nextPx + 1 else 0, px);
  }

  lemma StarFreeGrows(pattern: seq<PatternChar>, from: nat, to: nat)
    requires from <= to < |pattern| && StarFree(pattern[from..to]) && !pattern[to].WildcardMany?
    ensures StarFree(pattern[from..to + 1])
  {
    assert pattern[from..to + 1] == pattern[from..to] + [pattern[to]];
  }

  /** A new star makes the older one unnecessary. */
  lemma NewStar(pattern: seq<PatternChar>, value: string, px: nat, nx: nat, nextPx: nat, nextNx: nat)
    requires Indices(pattern, value, px, nx, nextPx, nextNx) && px < |pattern| && pattern[px].WildcardMany?
    ensures Indices(pattern, value, px + 1, nx, px, nx + 1)
    ensures InLanguage(pattern[px..], value[nx..]) || Resume(pattern, value, nextPx, nextNx)
      <==> InLanguage(pattern[px + 1..], value[nx..]) || Resume(pattern, value, px, nx + 1)
  {
    StarUnfolds(pattern, px, value, nx);
    if Resume(pattern, value, nextPx, nextNx) && px > nextPx {
      assert value[nextNx..] == value[nextNx - 1..][1..];
      StarAbsorbs(pattern[nextPx..], value[nextNx - 1..], 1);
      LastStarSuffices(pattern, nextPx, px, value, nextNx - 1);
    }
  }

  method Matches(pattern: seq<PatternChar>, value: string) returns (matched: bool)
    ensures matched == InLanguage(pattern, value)
  {
    hide InLanguage;
    var px, nx, nextPx, nextNx := 0, 0, 0, 0;
    assert pattern[0..] == pattern && value[0..] == value;
    while px < |pattern| || nx < |value|
      invariant Indices(pattern, value, px, nx, nextPx, nextNx)
      invariant InLanguage(pattern, value) <==> InLanguage(pattern[px..], value[nx..]) || Resume(pattern, value, nextPx, nextNx)
      decreases |pattern| - nextPx, |value| + 1 - nextNx, if nextNx > 0 && px == nextPx then 0 else |pattern| - px + 1
    {
      if px < |pattern| {
        match pattern[px] {
          case Char(c) =>
            MoveOn(pattern, value, px, nx, nextPx, nextNx);
            if nx < |value| && value[nx] == c {
              px, nx := px + 1, nx + 1;
              continue;
            }
          case WildcardSingle =>
            MoveOn(pattern, value, px, nx, nextPx, nextNx);
            if nx < |value| {
              px, nx := px + 1, nx + 1;
              continue;
            }
          case WildcardMany(_) =>
            NewStar(pattern, value, px, nx, nextPx, nextNx);
            nextPx, nextNx, px := px, nx + 1, px + 1;
            continue;
        }
      } else {
        PatternUsedUp(pattern, value, nx);
      }
      if 0 < nextNx <= |value| {
        px, nx := nextPx, nextNx;
        continue;
      }
      return false;
    }
    PatternUsedUp(pattern, value, nx);
    return true;
  }

  lemma PatternUsedUp(pattern: seq<PatternChar>, value: string, nx: nat)
    requires nx <= |value|
    ensures InLanguage(pattern[|pattern|..], value[nx..]) <==> nx == |value|
  {
  }

  // -------------------------------------------------------------- compiling

  function StarRun(text: string): (n: nat)
    ensures n <= |text|
    ensures forall i :: 0 <= i < n ==> text[i] == '*'
    ensures n < |text| ==> text[n] != '*'
  {
    if text != "" && text[0] == '*' then 1 + StarRun(text[1..]) else 0
  }

  /** The escape automaton: a backslash makes the next character an ordinary one, a run of stars is one star. */
  function CompileFrom(text: string, escaped: bool): seq<PatternChar>
    decreases |text|
  {
    if text == "" then []
    else if text[0] == '*' && !escaped then
      var n := StarRun(text);
      [WildcardMany(n)] + CompileFrom(text[n..], false)
    else if text[0] == '?' && !escaped then [WildcardSingle] + CompileFrom(text[1..], false)
    else if text[0] == '\\' && !escaped then CompileFrom(text[1..], true)
    else [Char(text[0])] + CompileFrom(text[1..], false)
  }

  method Compile(text: string) returns (chars: seq<PatternChar>)
    ensures chars == CompileFrom(text, false)
  {
    hide CompileFrom, StarRun;
    chars := [];
    var isEscaped, pos := false, 0;
    assert text[0..] == text && [] + CompileFrom(text, false) == CompileFrom(text, false);
    while pos < |text|
      invariant pos <= |text|
      invariant chars + CompileFrom(text[pos..], isEscaped) == CompileFrom(text, false)
    {
      var c := text[pos];
      ghost var from, rest := pos, text[pos..];
      pos := pos + 1;
      assert rest[1..] == text[pos..] && rest[0] == c;
      CompileFirst(rest, isEscaped);
      if c == '*' && !isEscaped {
        var num := 1;
        while pos < |text| && text[pos] == '*'
          invariant from < pos <= |text| && num == pos - from
          invariant forall i :: from <= i < pos ==> text[i] == '*'
        {
          num := num + 1;
          pos := pos + 1;
        }
        RunLength(rest, num);
        assert rest[num..] == text[pos..];
        PushOne(chars, WildcardMany(num), CompileFrom(text[pos..], false));
        chars := chars + [WildcardMany(num)];
      } else if c == '?' && !isEscaped {
        PushOne(chars, WildcardSingle, CompileFrom(text[pos..], false));
        chars := chars + [WildcardSingle];
      } else if c == '\\' && !isEscaped {
        isEscaped := true;
      } else {
        PushOne(chars, Char(c), CompileFrom(text[pos..], false));
        isEscaped := false;
        chars := chars + [Char(c)];
      }
    }
    CompileNothing(isEscaped);
    assert text[pos..] == "" && chars + [] == chars;
  }

  lemma CompileFirst(text: string, escaped: bool)
    requires text != ""
    ensures var c := text[0];
      CompileFrom(text, escaped) ==
        if c == '*' && !escaped then [WildcardMany(StarRun(text))] + CompileFrom(text[StarRun(text)..], false)
        else if c == '?' && !escaped then [WildcardSingle] + CompileFrom(text[1..], false)
        else if c == '\\' && !escaped then CompileFrom(text[1..], true)
        else [Char(c)] + CompileFrom(text[1..], false)
  {
    hide StarRun;
  }

  lemma CompileNothing(escaped: bool)
    ensures CompileFrom("", escaped) == []
  {
  }

  lemma PushOne<T>(s: seq<T>, x: T, rest: seq<T>)
    ensures s + ([x] + rest) == s + [x] + rest
  {
  }

  lemma {:induction false} RunLength(text: string, n: nat)
    requires n <= |text| && (forall i :: 0 <= i < n ==> text[i] == '*') && (n < |text| ==> text[n] != '*')
    ensures StarRun(text) == n
  {
    if n > 0 {
      RunLength(text[1..], n - 1);
    }
  }

  // ------------------------------------------------- writing a pattern down

  function Stars(n: nat): (s: string)
    ensures |s| == n && forall i :: 0 <= i < n ==> s[i] == '*'
  {
    if n == 0 then "" else "*" + Stars(n - 1)
  }

  /** The text an author writes for a pattern: special characters that stand for themselves get a backslash. */
  function Written(pattern: seq<PatternChar>): string {
    if pattern == [] then ""
    else
      (match pattern[0]
       case WildcardMany(n) => Stars(n)
       case WildcardSingle => "?"
       case Char(c) => if c == '*' || c == '?' || c == '\\' then ['\\', c] else [c])
      + Written(pattern[1..])
  }

  /** Two runs of stars in a row would be one, and no run is empty. */
  predicate Distinct(pattern: seq<PatternChar>) {
    forall i :: 0 <= i < |pattern| && pattern[i].WildcardMany? ==>
      pattern[i].num > 0 && (i + 1 < |pattern| ==> !pattern[i + 1].WildcardMany?)
  }

  /** Every pattern can be written, and is compiled back from its text. */
  lemma {:induction false} CompileOfWritten(pattern: seq<PatternChar>)
    requires Distinct(pattern)
    ensures CompileFrom(Written(pattern), false) == pattern
    decreases |pattern|
  {
    if pattern != [] {
      var rest := Written(pattern[1..]);
      var text := Written(pattern);
      CompileOfWritten(pattern[1..]);
      match pattern[0]
      case WildcardMany(n) =>
        if pattern[1..] != [] {
          assert !pattern[1].WildcardMany? && pattern[1..][0] == pattern[1];
        }
        assert rest != "" ==> rest[0] != '*';
        assert text[n..] == rest && text[0] == '*';
        RunLength(text, n);
      case WildcardSingle =>
        assert text[1..] == rest;
      case Char(c) =>
        if c == '*' || c == '?' || c == '\\' {
          assert text[1..] == [c] + rest && text[1..][1..] == rest && text[0] == '\\';
        } else {
          assert text[1..] == rest;
        }
    }
  }

  datatype Compiled = Pattern(chars: seq<PatternChar>) | Literal(text: string)

  /** The detection looks one character back only. */
  predicate IsGlob(text: string) {
    exists i :: 0 <= i < |text| && (text[i] == '*' || text[i] == '?') && (i > 0 ==> text[i - 1] != '\\')
  }

  function Strip(text: string): string {
    if text == "" then ""
    else (if text[0] == '\\' then "" else [text[0]]) + Strip(text[1..])
  }

  function Shortcut(text: string): Compiled {
    if IsGlob(text) then Pattern(CompileFrom(text, false)) else Literal(Strip(text))
  }

  lemma {:induction false} NothingToStrip(text: string)
    requires '\\' !in text
    ensures Strip(text) == text
  {
    if text != "" {
      NothingToStrip(text[1..]);
    }
  }

  method TryCompile(text: string) returns (r: Compiled)
    ensures r == Shortcut(text)
  {
    var lastCh, hasEscape, isGlob := '\0', false, false;
    for i := 0 to |text|
      invariant lastCh == if i == 0 then '\0' else text[i - 1]
      invariant hasEscape <==> '\\' in text[..i]
      invariant isGlob <==> IsGlob(text[..i])
    {
      GlobSoFar(text, i);
      assert text[..i + 1] == text[..i] + [text[i]];
      var ch := text[i];
      if ch == '\\' {
        hasEscape := true;
      } else if (ch == '*' || ch == '?') && lastCh != '\\' {
        isGlob := true;
      }
      lastCh := ch;
    }
    assert text[..|text|] == text;
    if isGlob {
      var chars := Compile(text);
      return Pattern(chars);
    }
    if !hasEscape {
      NothingToStrip(text);
      return Literal(text);
    }
    return Literal(Strip(text));
  }

  lemma GlobSoFar(text: string, i: nat)
    requires i < |text|
    ensures IsGlob(text[..i + 1]) <==>
      IsGlob(text[..i]) || ((text[i] == '*' || text[i] == '?') && (i > 0 ==> text[i - 1] != '\\'))
  {
    var longer, shorter := text[..i + 1], text[..i];
    assert forall j :: 0 <= j < i ==> longer[j] == shorter[j];
    assert longer[i] == text[i];
    if IsGlob(longer) {
      var j :| 0 <= j < |longer| && (longer[j] == '*' || longer[j] == '?') && (j > 0 ==> longer[j - 1] != '\\');
      if j < i {
        assert shorter[j] == longer[j];
      }
    }
    if IsGlob(shorter) {
      var j :| 0 <= j < |shorter| && (shorter[j] == '*' || shorter[j] == '?') && (j > 0 ==> shorter[j - 1] != '\\');
      assert longer[j] == shorter[j];
    }
    if (text[i] == '*' || text[i] == '?') && (i > 0 ==> text[i - 1] != '\\') {
      assert i > 0 ==> longer[i - 1] == text[i - 1];
    }
  }

  // -------------------------------------------------- the literal shortcut

  ghost predicate Accepts(compiled: Compiled, key: string) {
    match compiled
    case Pattern(chars) => InLanguage(chars, key)
    case Literal(text) => key == text
  }

  predicate AdjacentBackslashes(text: string) {
    exists i :: 0 <= i < |text| - 1 && text[i] == '\\' && text[i + 1] == '\\'
  }

  /** Patterns for which the hash-table shortcut may be taken. */
  predicate ShortcutSafe(text: string) {
    IsGlob(text) || !AdjacentBackslashes(text)
  }

  function Chars(text: string): seq<PatternChar> {
    if text == "" then [] else [Char(text[0])] + Chars(text[1..])
  }

  lemma {:induction false} CharsMatchThemselves(text: string, key: string)
    ensures InLanguage(Chars(text), key) <==> key == text
  {
    if text == "" {
    } else {
      assert Chars(text)[1..] == Chars(text[1..]);
      if key != "" {
        CharsMatchThemselves(text[1..], key[1..]);
        assert key == [key[0]] + key[1..] && text == [text[0]] + text[1..];
      }
    }
  }

  predicate EscapedAt(text: string, escaped: bool, i: nat)
    requires i < |text|
  {
    if i == 0 then escaped else text[i - 1] == '\\'
  }

  lemma {:induction false} LiteralCompiles(text: string, escaped: bool)
    requires forall i :: 0 <= i < |text| && (text[i] == '*' || text[i] == '?') ==> EscapedAt(text, escaped, i)
    requires forall i :: 0 <= i < |text| && text[i] == '\\' ==> !EscapedAt(text, escaped, i)
    ensures CompileFrom(text, escaped) == Chars(Strip(text))
    decreases |text|
  {
    if text == "" {
    } else {
      assert EscapedAt(text, escaped, 0) == escaped;
      var rest := text[1..];
      assert forall i {:trigger rest[i]} :: 0 <= i < |rest| ==> EscapedAt(rest, text[0] == '\\', i) == EscapedAt(text, escaped, i + 1);
      LiteralCompiles(rest, text[0] == '\\');
      var stripped := Strip(rest);
      if text[0] == '\\' {
        assert Strip(text) == stripped;
      } else {
        assert Strip(text) == [text[0]] + stripped && Strip(text)[1..] == stripped;
        assert Chars(Strip(text)) == [Char(text[0])] + Chars(stripped);
        assert CompileFrom(text, escaped) == [Char(text[0])] + CompileFrom(text[1..], false);
      }
    }
  }

  lemma {:induction false} BackslashSurvives(text: string)
    requires AdjacentBackslashes(text)
    ensures Char('\\') in CompileFrom(text, false)
    decreases |text|
  {
    var i :| 0 <= i < |text| - 1 && text[i] == '\\' && text[i + 1] == '\\';
    if text[0] == '*' {
      var n := StarRun(text);
      assert n <= i;
      assert text[n..][i - n] == text[i] && text[n..][i - n + 1] == text[i + 1];
      BackslashSurvives(text[n..]);
    } else if text[0] != '\\' {
      assert text[1..][i - 1] == text[i] && text[1..][i] == text[i + 1];
      BackslashSurvives(text[1..]);
    } else if text[1] != '\\' {
      assert text[1..][1..] == text[2..];
      assert text[2..][i - 2] == text[i] && text[2..][i - 1] == text[i + 1];
      BackslashSurvives(text[2..]);
    }
  }

  lemma {:induction false} CharIsMatched(pattern: seq<PatternChar>, c: char, value: string)
    requires Char(c) in pattern && InLanguage(pattern, value)
    ensures c in value
    decreases |pattern|
  {
    if pattern[0] != Char(c) {
      assert Char(c) in pattern[1..];
      match pattern[0] {
        case WildcardMany(_) =>
          var k :| 0 <= k <= |value| && InLanguage(pattern[1..], value[k..]);
          CharIsMatched(pattern[1..], c, value[k..]);
        case _ =>
          CharIsMatched(pattern[1..], c, value[1..]);
      }
    }
  }

  lemma {:induction false} StripLeavesNone(text: string)
    ensures '\\' !in Strip(text)
  {
    if text != "" {
      StripLeavesNone(text[1..]);
    }
  }

  lemma SafeShortcutAgrees(text: string, key: string)
    requires ShortcutSafe(text)
    ensures Accepts(Shortcut(text), key) <==> InLanguage(CompileFrom(text, false), key)
  {
    if !IsGlob(text) {
      assert forall i :: 0 <= i < |text| ==> EscapedAt(text, false, i) == (i > 0 && text[i - 1] == '\\');
      LiteralCompiles(text, false);
      CharsMatchThemselves(Strip(text), key);
    }
  }

  /** The shortcut means what the compiled pattern means exactly when the text is a detected glob or has no two
      adjacent backslashes. */
  lemma ShortcutAgrees(text: string)
    ensures (forall key :: Accepts(Shortcut(text), key) <==> InLanguage(CompileFrom(text, false), key)) <==> ShortcutSafe(text)
  {
    if ShortcutSafe(text) {
      forall key ensures Accepts(Shortcut(text), key) <==> InLanguage(CompileFrom(text, false), key) {
        SafeShortcutAgrees(text, key);
      }
    } else {
      var key := Strip(text);
      BackslashSurvives(text);
      StripLeavesNone(text);
      if InLanguage(CompileFrom(text, false), key) {
        CharIsMatched(CompileFrom(text, false), '\\', key);
      }
      assert Accepts(Shortcut(text), key) && !InLanguage(CompileFrom(text, false), key);
    }
  }

  // ----------------------------------------------------------- sets and maps

  class GlobSet {
    var entries: set<string>
    var patterns: seq<seq<PatternChar>>
    ghost var inserted: seq<string>

    ghost predicate Valid()
      reads this
    {
      && entries == (set i | 0 <= i < |inserted| && Shortcut(inserted[i]).Literal? :: Shortcut(inserted[i]).text)
      && (forall p :: p in patterns <==> exists i :: 0 <= i < |inserted| && Shortcut(inserted[i]) == Pattern(p))
    }

    constructor ()
      ensures Valid() && inserted == []
    {
      entries, patterns, inserted := {}, [], [];
    }

    method Insert(text: string)
      requires Valid()
      modifies this
      ensures Valid() && inserted == old(inserted) + [text]
    {
      var compiled := TryCompile(text);
      match compiled {
        case Pattern(chars) => patterns := patterns + [chars];
        case Literal(entry) => entries := entries + {entry};
      }
      inserted := inserted + [text];
      assert forall i :: 0 <= i < |old(inserted)| ==> inserted[i] == old(inserted)[i];
      assert inserted[|old(inserted)|] == text;
    }

    /** When every inserted text is safe for the shortcut, membership is matching one of the compiled patterns. */
    method Contains(key: string) returns (found: bool)
      requires Valid()
      ensures found <==> exists i :: 0 <= i < |inserted| && Accepts(Shortcut(inserted[i]), key)
      ensures (forall i :: 0 <= i < |inserted| ==> ShortcutSafe(inserted[i])) ==>
        (found <==> exists i :: 0 <= i < |inserted| && InLanguage(CompileFrom(inserted[i], false), key))
    {
      found := key in entries;
      var k := 0;
      while !found && k < |patterns|
        invariant k <= |patterns|
        invariant found <==> key in entries || exists j :: 0 <= j < k && InLanguage(patterns[j], key)
      {
        found := Matches(patterns[k], key);
        k := k + 1;
      }
      forall i | 0 <= i < |inserted| && ShortcutSafe(inserted[i])
        ensures Accepts(Shortcut(inserted[i]), key) <==> InLanguage(CompileFrom(inserted[i], false), key)
      {
        SafeShortcutAgrees(inserted[i], key);
      }
      if found {
        if key !in entries {
          ghost var j :| 0 <= j < |patterns| && InLanguage(patterns[j], key);
          assert patterns[j] in patterns;
        }
      } else {
        forall i | 0 <= i < |inserted| ensures !Accepts(Shortcut(inserted[i]), key) {
          if Shortcut(inserted[i]).Pattern? {
            assert Shortcut(inserted[i]) == Pattern(Shortcut(inserted[i]).chars);
            assert Shortcut(inserted[i]).chars in patterns;
          }
        }
      }
    }
  }

  /** The value of the last literal entry under `key`. */
  ghost function LastLiteral<V>(inserted: seq<(string, V)>, key: string): Option<V> {
    if inserted == [] then None
    else
      var last := inserted[|inserted| - 1];
      if Shortcut(last.0) == Literal(key) then Some(last.1) else LastLiteral(inserted[..|inserted| - 1], key)
  }

  /** The patterns in insertion order, with their values. */
  ghost function PatternsOf<V>(inserted: seq<(string, V)>): seq<(seq<PatternChar>, V)> {
    if inserted == [] then []
    else
      var last := inserted[|inserted| - 1];
      PatternsOf(inserted[..|inserted| - 1]) + if Shortcut(last.0).Pattern? then [(Shortcut(last.0).chars, last.1)] else []
  }

  ghost function FirstMatch<V>(patterns: seq<(seq<PatternChar>, V)>, key: string): Option<V> {
    if patterns == [] then None
    else if InLanguage(patterns[0].0, key) then Some(patterns[0].1)
    else FirstMatch(patterns[1..], key)
  }

  ghost predicate AcceptedBySome<V>(inserted: seq<(string, V)>, key: string) {
    exists i :: 0 <= i < |inserted| && Accepts(Shortcut(inserted[i].0), key)
  }

  lemma AcceptedBySplit<V>(inserted: seq<(string, V)>, key: string)
    requires inserted != []
    ensures var last := |inserted| - 1;
      AcceptedBySome(inserted, key) <==> AcceptedBySome(inserted[..last], key) || Accepts(Shortcut(inserted[last].0), key)
  {
    var last := |inserted| - 1;
    if i :| 0 <= i < last && Accepts(Shortcut(inserted[..last][i].0), key) {
      assert Accepts(Shortcut(inserted[i].0), key);
    }
    if i :| 0 <= i < |inserted| && Accepts(Shortcut(inserted[i].0), key) {
      assert i < last ==> inserted[..last][i] == inserted[i];
    }
  }

  class GlobMap<V> {
    var entries: map<string, V>
    var patterns: seq<(seq<PatternChar>, V)>
    ghost var inserted: seq<(string, V)>

    ghost predicate Valid()
      reads this
    {
      && patterns == PatternsOf(inserted)
      && forall key :: LastLiteral(inserted, key) == if key in entries then Some(entries[key]) else None
    }

    constructor ()
      ensures Valid() && inserted == []
    {
      entries, patterns, inserted := map[], [], [];
    }

    method Insert(text: string, value: V)
      requires Valid()
      modifies this
      ensures Valid() && inserted == old(inserted) + [(text, value)]
    {
      var compiled := TryCompile(text);
      match compiled {
        case Pattern(chars) => patterns := patterns + [(chars, value)];
        case Literal(entry) => entries := entries[entry := value];
      }
      inserted := inserted + [(text, value)];
      assert inserted[..|inserted| - 1] == old(inserted);
    }

    /** A literal entry beats every pattern, a later literal beats an earlier one, an earlier pattern beats a later one. */
    method Get(key: string) returns (r: Option<V>)
      requires Valid()
      ensures r == if LastLiteral(inserted, key).Some? then LastLiteral(inserted, key) else FirstMatch(PatternsOf(inserted), key)
      ensures r.Some? <==> AcceptedBySome(inserted, key)
    {
      FoundSomewhere(inserted, key);
      if key in entries {
        return Some(entries[key]);
      }
      r := None;
      var k := 0;
      assert patterns[0..] == patterns;
      while k < |patterns|
        invariant k <= |patterns|
        invariant FirstMatch(patterns, key) == FirstMatch(patterns[k..], key)
      {
        assert patterns[k..][1..] == patterns[k + 1..];
        var matched := Matches(patterns[k].0, key);
        if matched {
          return Some(patterns[k].1);
        }
        k := k + 1;
      }
    }
  }

  lemma {:induction false} FirstMatchAppends<V>(patterns: seq<(seq<PatternChar>, V)>, last: (seq<PatternChar>, V), key: string)
    ensures FirstMatch(patterns + [last], key).Some? <==> FirstMatch(patterns, key).Some? || InLanguage(last.0, key)
  {
    if patterns == [] {
      assert (patterns + [last])[1..] == [];
    } else {
      assert (patterns + [last])[1..] == patterns[1..] + [last];
      FirstMatchAppends(patterns[1..], last, key);
    }
  }

  lemma {:induction false} FoundSomewhere<V>(inserted: seq<(string, V)>, key: string)
    ensures AcceptedBySome(inserted, key) <==> LastLiteral(inserted, key).Some? || FirstMatch(PatternsOf(inserted), key).Some?
  {
    if inserted == [] {
    } else {
      var init, last := inserted[..|inserted| - 1], inserted[|inserted| - 1];
      FoundSomewhere(init, key);
      if Shortcut(last.0).Pattern? {
        FirstMatchAppends(PatternsOf(init), (Shortcut(last.0).chars, last.1), key);
      } else {
        assert PatternsOf(inserted) == PatternsOf(init);
      }
      AcceptedBySplit(inserted, key);
    }
  }
}
