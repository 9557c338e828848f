/** String helpers that the applicant tracker relies on, stated the way
    JavaScript behaves on them: `toLowerCase` (ASCII letters only), the
    white-space class of `\s` and `trim`, `includes`, the `<` order on
    strings, the `replace(/\s+/g, "_")` identifier derivation and the
    decimal rendering `String(n)` of an integer. */
module Text {

  // ---------------------------------------------------------------------
  // Lower-casing
  // ---------------------------------------------------------------------

  /** `toLowerCase` of one character, restricted to ASCII letters. */
  function LowerChar(c: char): char {
    if 'A' <= c <= 'Z' then (c as int + 32) as char else c
  }

  /** `toLowerCase`, character by character. */
  function Lower(s: string): (r: string)
    ensures |r| == |s|
  {
    if s == [] then [] else [LowerChar(s[0])] + Lower(s[1..])
  }

  predicate IsLowerCase(s: string) {
    forall i :: 0 <= i < |s| ==> !('A' <= s[i] <= 'Z')
  }

  /** Each character is lowered on its own. */
  lemma {:induction false} LowerAt(s: string, i: nat)
    requires i < |s|
    ensures Lower(s)[i] == LowerChar(s[i])
  {
    if i > 0 {
      LowerAt(s[1..], i - 1);
    }
  }

  /** Lower-casing leaves no ASCII capital behind and keeps the length. */
  lemma LowerIsLowerCase(s: string)
    ensures |Lower(s)| == |s| && IsLowerCase(Lower(s))
  {
    forall i | 0 <= i < |s| ensures !('A' <= Lower(s)[i] <= 'Z') {
      LowerAt(s, i);
    }
  }

  /** Lower-casing a lower-case string changes nothing. */
  lemma LowerOfLowerCase(s: string)
    requires IsLowerCase(s)
    ensures Lower(s) == s
  {
    forall i | 0 <= i < |s| ensures Lower(s)[i] == s[i] {
      LowerAt(s, i);
    }
  }

  lemma LowerAppend(a: string, b: string)
    ensures Lower(a + b) == Lower(a) + Lower(b)
  {
    forall i | 0 <= i < |a + b| ensures Lower(a + b)[i] == (Lower(a) + Lower(b))[i] {
      LowerAt(a + b, i);
      if i < |a| {
        LowerAt(a, i);
      } else {
        LowerAt(b, i - |a|);
      }
    }
  }

  // ---------------------------------------------------------------------
  // White space and trimming
  // ---------------------------------------------------------------------

  /** The characters JavaScript's `\s` and `String.prototype.trim` treat as
      white space: WhiteSpace and LineTerminator of ECMA-262. */
  predicate IsWhitespace(c: char) {
    c == '\t' || c == '\n' || c == '\U{000B}' || c == '\U{000C}' || c == '\r' || c == ' '
    || c == '\U{00A0}' || c == '\U{1680}' || ('\U{2000}' <= c <= '\U{200A}')
    || c == '\U{2028}' || c == '\U{2029}' || c == '\U{202F}' || c == '\U{205F}'
    || c == '\U{3000}' || c == '\U{FEFF}'
  }

  /** Every character is white space (the empty string included). */
  predicate Blank(s: string) {
    forall i :: 0 <= i < |s| ==> IsWhitespace(s[i])
  }

  predicate HasNoWhitespace(s: string) {
    forall i :: 0 <= i < |s| ==> !IsWhitespace(s[i])
  }

  /** How many white-space characters `s` starts with. */
  function LeadingBlanks(s: string): (n: nat)
    ensures n <= |s| && Blank(s[..n])
    ensures n == |s| || !IsWhitespace(s[n])
  {
    if s != [] && IsWhitespace(s[0]) then
      var m := LeadingBlanks(s[1..]);
      assert s[..m + 1] == [s[0]] + s[1..][..m];
      m + 1
    else 0
  }

  /** How many white-space characters `s` ends with. */
  function TrailingBlanks(s: string): (n: nat)
    ensures n <= |s| && Blank(s[|s| - n..])
    ensures n == |s| || !IsWhitespace(s[|s| - 1 - n])
  {
    if s != [] && IsWhitespace(s[|s| - 1]) then
      var m := TrailingBlanks(s[..|s| - 1]);
      assert s[|s| - 1 - m..] == s[..|s| - 1][|s| - 1 - m..] + [s[|s| - 1]];
      m + 1
    else 0
  }

  /** `String.prototype.trimStart`. */
  function TrimStart(s: string): string {
    s[LeadingBlanks(s)..]
  }

  /** `String.prototype.trimEnd`. */
  function TrimEnd(s: string): string {
    s[..|s| - TrailingBlanks(s)]
  }

  /** `String.prototype.trim`. */
  function Trim(s: string): (r: string)
    ensures Contains(s, r)
    ensures r == "" || (!IsWhitespace(r[0]) && !IsWhitespace(r[|r| - 1]))
  {
    var n := LeadingBlanks(s);
    var r := TrimEnd(TrimStart(s));
    assert s[n..n + |r|] == r;
    assert OccursAt(s, r, n);
    r
  }

  /** `trim` removes exactly the leading white space and the trailing white
      space: the result is the text from the first non-white-space
      character, with only white space before it and after it. */
  lemma TrimRemovesOnlyBlankEnds(s: string)
    ensures var n, r := LeadingBlanks(s), Trim(s);
      n + |r| <= |s| && s[n..n + |r|] == r && Blank(s[..n]) && Blank(s[n + |r|..])
  {
    var n := LeadingBlanks(s);
    var t := TrimStart(s);
    var m := TrailingBlanks(t);
    var r := Trim(s);
    assert t == s[n..] && r == t[..|t| - m];
    assert Blank(s[..n]);
    assert Blank(t[|t| - m..]);
    assert s[n..n + |r|] == r;
    assert s[n + |r|..] == t[|t| - m..];
  }

  /** `s.trim() !== ""` exactly when `s` holds a character that is not white
      space. */
  lemma TrimEmptyIffBlank(s: string)
    ensures Trim(s) == "" <==> Blank(s)
  {
    var n := LeadingBlanks(s);
    var t := TrimStart(s);
    if t == [] {
      assert s[..n] == s;
    } else {
      // t starts with a character that is not white space, which TrimEnd
      // keeps and which makes s non-blank.
      assert t[0] == s[n];
      assert TrailingBlanks(t) < |t|;
    }
  }

  // ---------------------------------------------------------------------
  // Substring search
  // ---------------------------------------------------------------------

  predicate OccursAt(hay: string, needle: string, i: int) {
    0 <= i && i + |needle| <= |hay| && hay[i..i + |needle|] == needle
  }

  /** `hay.includes(needle)`. */
  predicate Contains(hay: string, needle: string)
    ensures Contains(hay, needle) ==> |needle| <= |hay|
  {
    exists i :: 0 <= i <= |hay| - |needle| && OccursAt(hay, needle, i)
  }

  /** Every string contains the empty string and itself. */
  lemma ContainsEmptyAndSelf(s: string)
    ensures Contains(s, "") && Contains(s, s)
  {
    assert OccursAt(s, "", 0);
    assert OccursAt(s, s, 0);
  }

  /** A match inside a part is a match inside the whole. */
  lemma ContainsInAppend(a: string, b: string, needle: string)
    requires Contains(a, needle) || Contains(b, needle)
    ensures Contains(a + b, needle)
  {
    if Contains(a, needle) {
      var i :| 0 <= i <= |a| - |needle| && OccursAt(a, needle, i);
      assert (a + b)[i..i + |needle|] == a[i..i + |needle|];
      assert OccursAt(a + b, needle, i);
    } else {
      var i :| 0 <= i <= |b| - |needle| && OccursAt(b, needle, i);
      assert (a + b)[|a| + i..|a| + i + |needle|] == b[i..i + |needle|];
      assert OccursAt(a + b, needle, |a| + i);
    }
  }

  // ---------------------------------------------------------------------
  // String order
  // ---------------------------------------------------------------------

  // JavaScript strings are sequences of UTF-16 code units, and `<` compares
  // those; a `string` here holds Unicode scalar values. A character at or
  // above U+10000 is two code units, the first a lead surrogate in
  // D800..DBFF, so it sorts before U+E000..U+FFFF although its code point
  // is larger. `UnitRank` places every character where its code units put
  // it, and `LessIsCodeUnitOrder` shows that `Less` is the code-unit order.

  /** The UTF-16 code units of one character. */
  function CodeUnits(c: char): (u: seq<int>)
    ensures 1 <= |u| <= 2
    ensures |u| == 1 <==> c as int < 0x10000
  {
    var v := c as int;
    if v < 0x10000 then [v]
    else [0xD800 + (v - 0x10000) / 0x400, 0xDC00 + (v - 0x10000) % 0x400]
  }

  /** The UTF-16 code units of a string. */
  function Utf16(s: string): seq<int> {
    if s == [] then [] else CodeUnits(s[0]) + Utf16(s[1..])
  }

  /** Lexicographic order on code-unit sequences, a proper prefix being
      smaller. */
  predicate UnitsLess(u: seq<int>, v: seq<int>) {
    if u == [] then v != []
    else if v == [] then false
    else if u[0] != v[0] then u[0] < v[0]
    else UnitsLess(u[1..], v[1..])
  }

  /** A character's place in code-unit order: U+0000..U+D7FF, then the
      supplementary characters, then U+E000..U+FFFF. */
  function UnitRank(c: char): (r: int)
    ensures c as int < 0xD800 ==> r < 0xD800
    ensures 0x10000 <= c as int ==> 0xD800 <= r < 0x110000
    ensures 0xE000 <= c as int < 0x10000 ==> 0x110000 <= r
  {
    var v := c as int;
    if v < 0xD800 || 0x10000 <= v then v else v + 0x110000
  }

  /** JavaScript's `a < b` on strings: at the first differing character,
      the one whose code units come first, a proper prefix being smaller. */
  predicate Less(a: string, b: string) {
    if a == [] then b != []
    else if b == [] then false
    else if a[0] != b[0] then UnitRank(a[0]) < UnitRank(b[0])
    else Less(a[1..], b[1..])
  }

  lemma UnitRankInjective(x: char, y: char)
    requires UnitRank(x) == UnitRank(y)
    ensures x == y
  {
    assert x as int == y as int;
  }

  lemma {:induction false} UnitsLessCommonPrefix(p: seq<int>, u: seq<int>, v: seq<int>)
    ensures UnitsLess(p + u, p + v) == UnitsLess(u, v)
  {
    if p == [] {
      assert p + u == u && p + v == v;
    } else {
      assert (p + u)[1..] == p[1..] + u;
      assert (p + v)[1..] == p[1..] + v;
      UnitsLessCommonPrefix(p[1..], u, v);
    }
  }

  /** Two different characters compare by their code units as by their
      ranks, whatever follows them. */
  lemma CharUnitsOrder(x: char, y: char, u: seq<int>, v: seq<int>)
    requires x != y
    ensures UnitsLess(CodeUnits(x) + u, CodeUnits(y) + v) <==> UnitRank(x) < UnitRank(y)
  {
    var X, Y := x as int, y as int;
    var cx, cy := CodeUnits(x) + u, CodeUnits(y) + v;
    assert cx[0] == CodeUnits(x)[0] && cy[0] == CodeUnits(y)[0];
    if X >= 0x10000 && Y >= 0x10000 && cx[0] == cy[0] {
      // Same lead surrogate: the trail surrogates decide.
      assert cx[1..] == [CodeUnits(x)[1]] + u;
      assert cy[1..] == [CodeUnits(y)[1]] + v;
      assert (X - 0x10000) / 0x400 == (Y - 0x10000) / 0x400;
      assert CodeUnits(x)[1] != CodeUnits(y)[1];
    }
  }

  /** `Less` is the lexicographic order of the strings' UTF-16 code units. */
  lemma {:induction false} LessIsCodeUnitOrder(a: string, b: string)
    ensures Less(a, b) <==> UnitsLess(Utf16(a), Utf16(b))
  {
    if a != [] && b != [] {
      if a[0] == b[0] {
        LessIsCodeUnitOrder(a[1..], b[1..]);
        UnitsLessCommonPrefix(CodeUnits(a[0]), Utf16(a[1..]), Utf16(b[1..]));
      } else {
        CharUnitsOrder(a[0], b[0], Utf16(a[1..]), Utf16(b[1..]));
      }
    }
  }

  /** U+1F600 is the surrogate pair D83D DE00, and 0xD83D < 0xFF46: the
      emoji sorts before U+FF46 although its code point is larger. */
  lemma SupplementaryBeforeHighBmp()
    ensures Less("\U{1F600}", "\U{FF46}") && !Less("\U{FF46}", "\U{1F600}")
  {
  }

  lemma {:induction false} LessIrreflexive(a: string)
    ensures !Less(a, a)
  {
    if a != [] {
      LessIrreflexive(a[1..]);
    }
  }

  lemma {:induction false} LessTransitive(a: string, b: string, c: string)
    requires Less(a, b) && Less(b, c)
    ensures Less(a, c)
  {
    if a != [] && b != [] && c != [] && a[0] == b[0] && b[0] == c[0] {
      LessTransitive(a[1..], b[1..], c[1..]);
    }
  }

  /** Any two different strings are ordered one way or the other. */
  lemma {:induction false} LessTotal(a: string, b: string)
    ensures a == b || Less(a, b) || Less(b, a)
  {
    if a != [] && b != [] {
      if a[0] == b[0] {
        LessTotal(a[1..], b[1..]);
        if a[1..] == b[1..] {
          assert a == [a[0]] + a[1..] && b == [b[0]] + b[1..];
        }
      } else if UnitRank(a[0]) == UnitRank(b[0]) {
        UnitRankInjective(a[0], b[0]);
      }
    }
  }

  lemma {:induction false} LessAsymmetric(a: string, b: string)
    requires Less(a, b)
    ensures !Less(b, a)
  {
    if Less(b, a) {
      LessTransitive(a, b, a);
      LessIrreflexive(a);
    }
  }

  // ---------------------------------------------------------------------
  // Identifier derivation: label.toLowerCase().replace(/\s+/g, "_")
  // ---------------------------------------------------------------------

  /** Every maximal run of white space becomes one underscore. */
  function CollapseWhitespace(s: string): string
    decreases |s|
  {
    if s == [] then []
    else if IsWhitespace(s[0]) then "_" + CollapseWhitespace(TrimStart(s[1..]))
    else [s[0]] + CollapseWhitespace(s[1..])
  }

  /** The custom-field identifier derived from a label. */
  function DeriveFieldId(caption: string): string {
    CollapseWhitespace(Lower(caption))
  }

  lemma {:induction false} CollapseHasNoWhitespace(s: string)
    ensures HasNoWhitespace(CollapseWhitespace(s))
    decreases |s|
  {
    if s != [] {
      if IsWhitespace(s[0]) {
        CollapseHasNoWhitespace(TrimStart(s[1..]));
      } else {
        CollapseHasNoWhitespace(s[1..]);
      }
    }
  }

  /** A string without white space is left as it is. */
  lemma {:induction false} CollapseIdentity(s: string)
    requires HasNoWhitespace(s)
    ensures CollapseWhitespace(s) == s
  {
    if s != [] {
      CollapseIdentity(s[1..]);
      assert s == [s[0]] + s[1..];
    }
  }

  /** One step of `CollapseWhitespace` on a character that is not white
      space. */
  lemma CollapseKeeps(c: char, t: string)
    requires !IsWhitespace(c)
    ensures CollapseWhitespace([c] + t) == [c] + CollapseWhitespace(t)
  {
    assert ([c] + t)[1..] == t;
  }

  /** One step of `CollapseWhitespace` on a white-space character. */
  lemma CollapseRun(c: char, t: string)
    requires IsWhitespace(c)
    ensures CollapseWhitespace([c] + t) == "_" + CollapseWhitespace(TrimStart(t))
  {
    assert ([c] + t)[1..] == t;
  }

  /** A word, a run of white space and the rest: the word is kept, the run
      becomes a single `_`, and the rest is collapsed on its own. */
  lemma {:induction false} CollapseWordRunRest(word: string, run: string, rest: string)
    requires HasNoWhitespace(word)
    requires run != [] && Blank(run)
    requires rest == [] || !IsWhitespace(rest[0])
    ensures CollapseWhitespace(word + run + rest) == word + "_" + CollapseWhitespace(rest)
    decreases |word|
  {
    if word == [] {
      assert word + run + rest == [run[0]] + (run[1..] + rest);
      CollapseRun(run[0], run[1..] + rest);
      TrimStartOfBlankPrefix(run[1..], rest);
      assert word + "_" + CollapseWhitespace(rest) == "_" + CollapseWhitespace(rest);
    } else {
      var tail := word[1..] + run + rest;
      assert word + run + rest == [word[0]] + tail;
      CollapseKeeps(word[0], tail);
      CollapseWordRunRest(word[1..], run, rest);
      assert [word[0]] + (word[1..] + "_" + CollapseWhitespace(rest)) == word + "_" + CollapseWhitespace(rest);
    }
  }

  lemma {:induction false} TrimStartOfBlankPrefix(run: string, rest: string)
    requires Blank(run)
    requires rest == [] || !IsWhitespace(rest[0])
    ensures TrimStart(run + rest) == rest
    decreases |run|
  {
    if run != [] {
      assert (run + rest)[1..] == run[1..] + rest;
      TrimStartOfBlankPrefix(run[1..], rest);
    } else {
      assert run + rest == rest;
    }
  }

  /** Derived identifiers contain no white space, are lower case, are empty
      only for the empty caption, and deriving again changes nothing. */
  lemma {:induction false} DeriveFieldIdProperties(caption: string)
    ensures HasNoWhitespace(DeriveFieldId(caption))
    ensures IsLowerCase(DeriveFieldId(caption))
    ensures DeriveFieldId(caption) == "" <==> caption == ""
    ensures DeriveFieldId(DeriveFieldId(caption)) == DeriveFieldId(caption)
  {
    var id := DeriveFieldId(caption);
    CollapseHasNoWhitespace(Lower(caption));
    LowerIsLowerCase(caption);
    CollapseKeepsLowerCase(Lower(caption));
    LowerOfLowerCase(id);
    CollapseIdentity(id);
  }

  lemma {:induction false} CollapseKeepsLowerCase(s: string)
    requires IsLowerCase(s)
    ensures IsLowerCase(CollapseWhitespace(s))
    decreases |s|
  {
    if s != [] {
      if IsWhitespace(s[0]) {
        var t := TrimStart(s[1..]);
        assert IsLowerCase(t) by {
          forall i | 0 <= i < |t| ensures !('A' <= t[i] <= 'Z') {
            assert t[i] == s[1..][|s| - 1 - |t| + i];
          }
        }
        CollapseKeepsLowerCase(t);
      } else {
        CollapseKeepsLowerCase(s[1..]);
      }
    }
  }

  /** Lower-casing neither creates nor removes white space. */
  lemma LowerKeepsNoWhitespace(s: string)
    requires HasNoWhitespace(s)
    ensures HasNoWhitespace(Lower(s))
  {
    forall i | 0 <= i < |s| ensures !IsWhitespace(Lower(s)[i]) {
      LowerAt(s, i);
    }
  }

  /** A two-word label derives the lower-cased words joined by a single
      underscore, whatever run of white space separates them. */
  lemma TwoWordLabel(first: string, run: string, second: string)
    requires HasNoWhitespace(first) && HasNoWhitespace(second) && second != []
    requires run != [] && Blank(run)
    ensures DeriveFieldId(first + run + second) == Lower(first) + "_" + Lower(second)
  {
    LowerAppend(first + run, second);
    LowerAppend(first, run);
    assert IsLowerCase(run);
    LowerOfLowerCase(run);
    LowerKeepsNoWhitespace(first);
    LowerKeepsNoWhitespace(second);
    LowerAt(second, 0);
    CollapseWordRunRest(Lower(first), run, Lower(second));
    CollapseIdentity(Lower(second));
  }

  /** Labels that differ only in letter case or in the white space between
      two words derive the same identifier. */
  lemma DistinctLabelsCollide(first: string, second: string)
    requires HasNoWhitespace(first) && HasNoWhitespace(second) && second != []
    ensures DeriveFieldId(first + " " + second) == DeriveFieldId(Lower(first) + "\t\t" + second)
  {
    TwoWordLabel(first, " ", second);
    LowerKeepsNoWhitespace(first);
    TwoWordLabel(Lower(first), "\t\t", second);
    LowerIsLowerCase(first);
    LowerOfLowerCase(Lower(first));
  }

  // ---------------------------------------------------------------------
  // Decimal rendering: String(n)
  // ---------------------------------------------------------------------

  predicate IsDigit(c: char) {
    '0' <= c <= '9'
  }

  predicate AllDigits(s: string) {
    forall i :: 0 <= i < |s| ==> IsDigit(s[i])
  }

  function DigitChar(d: nat): (c: char)
    requires d < 10
    ensures IsDigit(c)
  {
    ('0' as int + d) as char
  }

  function DigitValue(c: char): nat
    requires IsDigit(c)
  {
    c as int - '0' as int
  }

  /** `String(n)` for a natural number: the shortest decimal numeral. */
  function NatToDecimal(n: nat): (r: string)
    ensures r != [] && AllDigits(r)
  {
    if n < 10 then [DigitChar(n)] else NatToDecimal(n / 10) + [DigitChar(n % 10)]
  }

  /** `String(i)` for an integer. */
  function IntToDecimal(i: int): string {
    if i < 0 then "-" + NatToDecimal(-i) else NatToDecimal(i)
  }

  /** The value of a string of decimal digits. */
  function DecimalValue(s: string): nat
    requires AllDigits(s)
  {
    if s == [] then 0 else DecimalValue(s[..|s| - 1]) * 10 + DigitValue(s[|s| - 1])
  }

  /** Rendering then reading back gives the number, and the rendering has
      no superfluous leading zero. */
  lemma {:induction false} NatToDecimalRoundTrip(n: nat)
    ensures DecimalValue(NatToDecimal(n)) == n
    ensures NatToDecimal(n)[0] == '0' ==> n == 0
  {
    if n >= 10 {
      var r := NatToDecimal(n);
      NatToDecimalRoundTrip(n / 10);
      assert r[..|r| - 1] == NatToDecimal(n / 10);
    }
  }

  /** Distinct numbers render differently. */
  lemma NatToDecimalInjective(m: nat, n: nat)
    requires NatToDecimal(m) == NatToDecimal(n)
    ensures m == n
  {
    NatToDecimalRoundTrip(m);
    NatToDecimalRoundTrip(n);
  }

  // ---------------------------------------------------------------------
  // Message fallback: text || fallback
  // ---------------------------------------------------------------------

  /** `text || fallback`: the empty string is falsy, so the fallback replaces
      it. */
  function OrElse(text: string, fallback: string): (r: string)
    ensures text != "" ==> r == text
    ensures text == "" ==> r == fallback
    ensures fallback != "" ==> r != ""
  {
    if text != "" then text else fallback
  }
}
