/**
 The derivation-path parser of src/hdwallet/derivation.rs, and the exact set of strings it
 accepts.
 */
module PathText {
  import opened Outcomes

  type u32 = n: int | 0 <= n < 0x1_0000_0000

  const HARDENED: u32 := 0x8000_0000

  datatype PathError = EmptyPath | InvalidIndex(position: nat) | IndexTooLarge(position: nat)

  // ---- the string functions the parser is made of ----------------------------

  /** The characters with the Unicode property White_Space, as `str::trim` removes them. */
  predicate IsWhitespace(c: char) {
    || '\U{9}' <= c <= '\U{D}' || c == ' ' || c == '\U{85}' || c == '\U{A0}' || c == '\U{1680}'
    || '\U{2000}' <= c <= '\U{200A}' || c == '\U{2028}' || c == '\U{2029}' || c == '\U{202F}'
    || c == '\U{205F}' || c == '\U{3000}'
  }

  function TrimStart(s: string): string {
    if s != [] && IsWhitespace(s[0]) then TrimStart(s[1..]) else s
  }

  function TrimEnd(s: string): string {
    if s != [] && IsWhitespace(s[|s| - 1]) then TrimEnd(s[..|s| - 1]) else s
  }

  /** `trim_start_matches("m/")`: every leading occurrence goes. */
  function StripPrefixes(s: string): string {
    if "m/" <= s then StripPrefixes(s[2..]) else s
  }

  /** `split('/')`: never empty. */
  function Split(s: string): (parts: seq<string>)
    ensures parts != []
  {
    if s == [] then [[]]
    else
      var rest := Split(s[1..]);
      if s[0] == '/' then [[]] + rest else [[s[0]] + rest[0]] + rest[1..]
  }

  predicate IsSuffixChar(c: char) {
    c == '\'' || c == 'h' || c == 'H'
  }

  /** `trim_end_matches(['\'', 'h', 'H'])`. */
  function TrimSuffix(s: string): string {
    if s != [] && IsSuffixChar(s[|s| - 1]) then TrimSuffix(s[..|s| - 1]) else s
  }

  predicate IsDigit(c: char) {
    '0' <= c <= '9'
  }

  predicate AllDigits(s: string) {
    forall i | 0 <= i < |s| :: IsDigit(s[i])
  }

  function DecimalValue(s: string): nat
    requires AllDigits(s)
  {
    if s == [] then 0
    else 10 * DecimalValue(s[..|s| - 1]) + (s[|s| - 1] as int - '0' as int)
  }

  /** `u32::from_str`: an optional plus sign and at least one digit, without overflow. */
  function ParseU32(s: string): Option<u32> {
    var digits := if s != [] && s[0] == '+' then s[1..] else s;
    if digits == [] || !AllDigits(digits) || DecimalValue(digits) >= 0x1_0000_0000 then None
    else Some(DecimalValue(digits))
  }

  // ---- the parser ----------------------------------------------------------------

  function ParseComponent(part: string, position: nat): Result<u32, PathError> {
    match ParseU32(TrimSuffix(part))
    case None => Err(InvalidIndex(position))
    case Some(n) => if n > 0x7FFF_FFFF then Err(IndexTooLarge(position)) else Ok(n + HARDENED)
  }

  /** Components in order; the first error ends the parse. */
  function ParseComponents(parts: seq<string>, position: nat): Result<seq<u32>, PathError> {
    if parts == [] then Ok([])
    else
      var n :- ParseComponent(parts[0], position);
      var rest :- ParseComponents(parts[1..], position + 1);
      Ok([n] + rest)
  }

  function ParseHardenedPath(text: string): Result<seq<u32>, PathError> {
    var s := StripPrefixes(TrimEnd(TrimStart(text)));
    if s == [] then Err(EmptyPath) else ParseComponents(Split(s), 0)
  }

  // ---- the texts it accepts ---------------------------------------------------------

  datatype Component = Component(plus: bool, digits: string, suffix: string)

  /** Digits and hardening suffixes, the value being of any size. */
  predicate Numeric(c: Component) {
    && c.digits != [] && AllDigits(c.digits)
    && forall i | 0 <= i < |c.suffix| :: c.suffix[i] in "'hH"
  }

  predicate WellFormed(c: Component) {
    Numeric(c) && DecimalValue(c.digits) <= 0x7FFF_FFFF
  }

  predicate AllWellFormed(cs: seq<Component>) {
    forall i | 0 <= i < |cs| :: WellFormed(cs[i])
  }

  function Show(c: Component): string {
    (if c.plus then "+" else "") + c.digits + c.suffix
  }

  function Join(cs: seq<Component>): string
    requires cs != []
  {
    if |cs| == 1 then Show(cs[0]) else Show(cs[0]) + "/" + Join(cs[1..])
  }

  function Prefixes(n: nat): string {
    if n == 0 then "" else "m/" + Prefixes(n - 1)
  }

  /** Only White_Space characters, as the Unicode Character Database lists them by code point. */
  predicate Blank(s: string) {
    forall i | 0 <= i < |s| ::
      var n := s[i] as int;
      || 0x9 <= n <= 0xD || n == 0x20 || n == 0x85 || n == 0xA0 || n == 0x1680 || 0x2000 <= n <= 0x200A
      || n == 0x2028 || n == 0x2029 || n == 0x202F || n == 0x205F || n == 0x3000
  }

  lemma BlankExactly(s: string)
    ensures Blank(s) <==> forall i | 0 <= i < |s| :: IsWhitespace(s[i])
  {
    if forall i | 0 <= i < |s| :: IsWhitespace(s[i]) {
      assert forall i | 0 <= i < |s| :: IsWhitespace(s[i]);
    }
    if Blank(s) {
      forall i | 0 <= i < |s|
        ensures IsWhitespace(s[i])
      {
        assert s[i] == s[i];
      }
    }
  }

  function Index(c: Component): u32
    requires WellFormed(c)
  {
    DecimalValue(c.digits) + HARDENED
  }

  function Indices(cs: seq<Component>): (path: seq<u32>)
    requires AllWellFormed(cs)
    ensures |path| == |cs| && forall i | 0 <= i < |cs| :: path[i] == Index(cs[i])
  {
    if cs == [] then [] else [Index(cs[0])] + Indices(cs[1..])
  }

  function Text(before: string, prefixes: nat, cs: seq<Component>, after: string): string
    requires cs != []
  {
    before + Prefixes(prefixes) + Join(cs) + after
  }

  /** `text` reads as a path: blanks, any number of "m/", well-formed components, blanks. */
  ghost predicate IsPathText(text: string, before: string, prefixes: nat, cs: seq<Component>, after: string) {
    && cs != [] && AllWellFormed(cs) && Blank(before) && Blank(after)
    && text == Text(before, prefixes, cs, after)
  }

  // ---- trimming ------------------------------------------------------------------------

  lemma {:induction false} TrimStartBlank(blank: string, s: string)
    requires Blank(blank)
    ensures TrimStart(blank + s) == TrimStart(s)
  {
    hide IsWhitespace;
    if blank == [] {
      assert blank + s == s;
    } else {
      BlankExactly(blank);
      assert (blank + s)[1..] == blank[1..] + s;
      TrimStartBlank(blank[1..], s);
    }
  }

  lemma {:induction false} TrimEndBlank(s: string, blank: string)
    requires Blank(blank)
    ensures TrimEnd(s + blank) == TrimEnd(s)
  {
    hide IsWhitespace;
    if blank == [] {
      assert s + blank == s;
    } else {
      BlankExactly(blank);
      assert (s + blank)[..|s + blank| - 1] == s + blank[..|blank| - 1];
      TrimEndBlank(s, blank[..|blank| - 1]);
    }
  }

  lemma TrimStartExact(blank: string, s: string)
    requires Blank(blank) && (s == [] || !IsWhitespace(s[0]))
    ensures TrimStart(blank + s) == s
  {
    hide IsWhitespace, Blank;
    TrimStartBlank(blank, s);
  }

  lemma TrimEndExact(s: string, blank: string)
    requires Blank(blank) && (s == [] || !IsWhitespace(s[|s| - 1]))
    ensures TrimEnd(s + blank) == s
  {
    hide IsWhitespace, Blank;
    TrimEndBlank(s, blank);
  }

  lemma {:induction false} TrimAfter(s: string, after: string)
    requires Blank(after)
    ensures TrimEnd(TrimStart(s + after)) == TrimEnd(TrimStart(s))
  {
    hide IsWhitespace, Blank;
    if s == [] {
      assert s + after == after + [] == [] + after;
      TrimStartBlank(after, []);
    } else if IsWhitespace(s[0]) {
      assert (s + after)[1..] == s[1..] + after;
      TrimAfter(s[1..], after);
    } else {
      TrimEndBlank(s, after);
    }
  }

  /** Blanks around a text do not change what the trimming leaves. */
  lemma {:induction false} TrimBoth(before: string, s: string, after: string)
    requires Blank(before) && Blank(after)
    ensures TrimEnd(TrimStart(before + s + after)) == TrimEnd(TrimStart(s))
    decreases s
  {
    hide IsWhitespace, Blank;
    assert before + s + after == before + (s + after);
    TrimStartBlank(before, s + after);
    TrimAfter(s, after);
  }

  lemma {:induction false} TrimStartWitness(s: string) returns (blank: string)
    ensures Blank(blank) && s == blank + TrimStart(s)
  {
    hide IsWhitespace, Blank;
    if s == [] || !IsWhitespace(s[0]) {
      blank := [];
      BlankExactly(blank);
    } else {
      var more := TrimStartWitness(s[1..]);
      BlankExactly(more);
      blank := [s[0]] + more;
      BlankExactly(blank);
    }
  }

  lemma {:induction false} TrimEndWitness(s: string) returns (blank: string)
    ensures Blank(blank) && s == TrimEnd(s) + blank
  {
    hide IsWhitespace, Blank;
    if s == [] || !IsWhitespace(s[|s| - 1]) {
      blank := [];
      BlankExactly(blank);
    } else {
      var more := TrimEndWitness(s[..|s| - 1]);
      BlankExactly(more);
      assert s == s[..|s| - 1] + [s[|s| - 1]];
      blank := more + [s[|s| - 1]];
      BlankExactly(blank);
    }
  }

  lemma {:induction false} StripExact(n: nat, s: string)
    requires !("m/" <= s)
    ensures StripPrefixes(Prefixes(n) + s) == s
  {
    if n == 0 {
      assert Prefixes(0) + s == s;
    } else {
      assert Prefixes(n) + s == "m/" + (Prefixes(n - 1) + s);
      assert ("m/" + (Prefixes(n - 1) + s))[2..] == Prefixes(n - 1) + s;
      StripExact(n - 1, s);
    }
  }

  lemma {:induction false} StripWitness(s: string) returns (n: nat)
    ensures s == Prefixes(n) + StripPrefixes(s)
  {
    if "m/" <= s {
      n := StripWitness(s[2..]);
      n := n + 1;
      assert s == "m/" + s[2..];
    } else {
      n := 0;
    }
  }

  // ---- one component -------------------------------------------------------------------

  lemma {:induction false} TrimSuffixExact(s: string, suffix: string)
    requires s == [] || !IsSuffixChar(s[|s| - 1])
    requires forall i | 0 <= i < |suffix| :: IsSuffixChar(suffix[i])
    ensures TrimSuffix(s + suffix) == s
  {
    if suffix == [] {
      assert s + suffix == s;
    } else {
      assert (s + suffix)[..|s + suffix| - 1] == s + suffix[..|suffix| - 1];
      TrimSuffixExact(s, suffix[..|suffix| - 1]);
    }
  }

  lemma {:induction false} TrimSuffixWitness(s: string) returns (suffix: string)
    ensures s == TrimSuffix(s) + suffix
    ensures forall i | 0 <= i < |suffix| :: IsSuffixChar(suffix[i])
  {
    if s != [] && IsSuffixChar(s[|s| - 1]) {
      suffix := TrimSuffixWitness(s[..|s| - 1]);
      assert s == s[..|s| - 1] + [s[|s| - 1]];
      suffix := suffix + [s[|s| - 1]];
    } else {
      suffix := [];
    }
  }

  lemma ShownNumber(c: Component)
    requires Numeric(c)
    ensures ParseU32(TrimSuffix(Show(c)))
         == if DecimalValue(c.digits) < 0x1_0000_0000 then Some(DecimalValue(c.digits)) else None
  {
    hide DecimalValue;
    var s := (if c.plus then "+" else "") + c.digits;
    assert s[|s| - 1] == c.digits[|c.digits| - 1];
    TrimSuffixExact(s, c.suffix);
    if c.plus {
      assert s[1..] == c.digits;
    } else {
      assert s == c.digits;
    }
  }

  lemma ComponentParses(c: Component, position: nat)
    requires WellFormed(c)
    ensures ParseComponent(Show(c), position) == Ok(Index(c))
  {
    hide ParseU32, TrimSuffix, Show;
    ShownNumber(c);
  }

  lemma NumberWitness(part: string) returns (c: Component)
    requires ParseU32(TrimSuffix(part)).Some?
    ensures Numeric(c) && part == Show(c) && ParseU32(TrimSuffix(part)) == Some(DecimalValue(c.digits))
  {
    hide DecimalValue;
    var s := TrimSuffix(part);
    var suffix := TrimSuffixWitness(part);
    if s != [] && s[0] == '+' {
      assert s == "+" + s[1..];
      c := Component(true, s[1..], suffix);
    } else {
      c := Component(false, s, suffix);
    }
  }

  lemma ComponentWitness(part: string, position: nat) returns (c: Component)
    requires ParseComponent(part, position).Ok?
    ensures WellFormed(c) && part == Show(c) && ParseComponent(part, position) == Ok(Index(c))
  {
    hide ParseU32, TrimSuffix, Show;
    c := NumberWitness(part);
  }

  /** The component spells a number that fits 32 bits but not 31. */
  ghost predicate TooLarge(part: string) {
    exists c :: Numeric(c) && part == Show(c) && 0x8000_0000 <= DecimalValue(c.digits) < 0x1_0000_0000
  }

  ghost predicate SpellsIndex(part: string) {
    exists c :: WellFormed(c) && part == Show(c)
  }

  /** The three outcomes of a component; a number of more than 32 bits is an invalid index. */
  lemma ComponentOutcome(part: string, position: nat)
    ensures ParseComponent(part, position).Ok? <==> SpellsIndex(part)
    ensures ParseComponent(part, position) == Err(IndexTooLarge(position)) <==> TooLarge(part)
    ensures ParseComponent(part, position) == Err(InvalidIndex(position)) <==> !SpellsIndex(part) && !TooLarge(part)
  {
    hide ParseU32, TrimSuffix, Show, DecimalValue, AllDigits;
    if ParseU32(TrimSuffix(part)).Some? {
      var c := NumberWitness(part);
      assert WellFormed(c) || 0x8000_0000 <= DecimalValue(c.digits) < 0x1_0000_0000;
    }
    forall c | Numeric(c) && part == Show(c)
      ensures ParseU32(TrimSuffix(part))
           == if DecimalValue(c.digits) < 0x1_0000_0000 then Some(DecimalValue(c.digits)) else None
    {
      ShownNumber(c);
    }
  }

  // ---- splitting and joining --------------------------------------------------------------

  predicate NoSlash(s: string) {
    forall i | 0 <= i < |s| :: s[i] != '/'
  }

  function JoinStrings(parts: seq<string>): string
    requires parts != []
  {
    if |parts| == 1 then parts[0] else parts[0] + "/" + JoinStrings(parts[1..])
  }

  lemma {:induction false} SplitPiece(s: string)
    requires NoSlash(s)
    ensures Split(s) == [s]
  {
    if s == [] {
    } else {
      SplitPiece(s[1..]);
      assert s == [s[0]] + s[1..];
    }
  }

  lemma {:induction false} SplitFirst(s: string, rest: string)
    requires NoSlash(s)
    ensures Split(s + ("/" + rest)) == [s] + Split(rest)
  {
    var t := s + ("/" + rest);
    if s == [] {
      assert t[1..] == rest;
    } else {
      SplitFirst(s[1..], rest);
      assert t[1..] == s[1..] + ("/" + rest);
      assert s == [s[0]] + s[1..];
    }
  }

  /** Splitting is the inverse of joining: pieces without slashes come back as they were. */
  lemma {:induction false} SplitOfJoin(parts: seq<string>)
    requires parts != [] && forall i | 0 <= i < |parts| :: NoSlash(parts[i])
    ensures Split(JoinStrings(parts)) == parts
  {
    if |parts| == 1 {
      SplitPiece(parts[0]);
    } else {
      SplitOfJoin(parts[1..]);
      SplitFirst(parts[0], JoinStrings(parts[1..]));
      assert parts[0] + "/" + JoinStrings(parts[1..]) == parts[0] + ("/" + JoinStrings(parts[1..]));
      assert parts == [parts[0]] + parts[1..];
    }
  }

  lemma {:induction false} JoinOfSplit(s: string)
    ensures JoinStrings(Split(s)) == s
  {
    if s == [] {
    } else {
      JoinOfSplit(s[1..]);
      var rest := Split(s[1..]);
      assert s == [s[0]] + s[1..];
      if s[0] == '/' {
        assert ([[]] + rest)[1..] == rest;
      } else {
        assert ([[s[0]] + rest[0]] + rest[1..])[1..] == rest[1..];
      }
    }
  }

  function Shown(cs: seq<Component>): (parts: seq<string>)
    ensures |parts| == |cs| && forall i | 0 <= i < |cs| :: parts[i] == Show(cs[i])
  {
    if cs == [] then [] else [Show(cs[0])] + Shown(cs[1..])
  }

  lemma {:induction false} JoinOfShown(cs: seq<Component>)
    requires cs != []
    ensures Shown(cs) != [] && JoinStrings(Shown(cs)) == Join(cs)
  {
    hide Show;
    if |cs| == 1 {
    } else {
      JoinOfShown(cs[1..]);
      assert Shown(cs)[1..] == Shown(cs[1..]);
    }
  }

  lemma {:induction false} ComponentsParse(cs: seq<Component>, position: nat)
    requires AllWellFormed(cs)
    ensures ParseComponents(Shown(cs), position) == Ok(Indices(cs))
  {
    hide Show, ParseComponent, Index;
    if cs == [] {
    } else {
      ComponentParses(cs[0], position);
      ComponentsParse(cs[1..], position + 1);
      assert Shown(cs)[1..] == Shown(cs[1..]);
    }
  }

  lemma {:induction false} ComponentsWitness(parts: seq<string>, position: nat) returns (cs: seq<Component>)
    requires ParseComponents(parts, position).Ok?
    ensures AllWellFormed(cs) && Shown(cs) == parts
    ensures ParseComponents(parts, position) == Ok(Indices(cs))
  {
    hide Show, ParseComponent, Index, WellFormed;
    if parts == [] {
      cs := [];
    } else {
      var c := ComponentWitness(parts[0], position);
      var rest := ComponentsWitness(parts[1..], position + 1);
      cs := [c] + rest;
      assert cs[1..] == rest;
      assert parts == [parts[0]] + parts[1..];
    }
  }

  /** Component i is the first that does not parse, and e is its error. */
  ghost predicate FirstError(parts: seq<string>, position: nat, e: PathError, i: nat) {
    && i < |parts|
    && ParseComponent(parts[i], position + i) == Err(e)
    && forall j | 0 <= j < i :: ParseComponent(parts[j], position + j).Ok?
  }

  lemma FirstErrorStep(parts: seq<string>, position: nat, e: PathError, i: nat)
    requires parts != [] && ParseComponent(parts[0], position).Ok?
    ensures FirstError(parts, position, e, i + 1) <==> FirstError(parts[1..], position + 1, e, i)
  {
    hide ParseComponent;
    var rest := parts[1..];
    assert forall j: nat | j < |rest| :: rest[j] == parts[j + 1] && position + 1 + j == position + (j + 1);
    if FirstError(parts, position, e, i + 1) {
      forall j | 0 <= j < i
        ensures ParseComponent(rest[j], position + 1 + j).Ok?
      {
        assert ParseComponent(parts[j + 1], position + (j + 1)).Ok?;
      }
    }
    if FirstError(rest, position + 1, e, i) {
      forall j | 0 <= j < i + 1
        ensures ParseComponent(parts[j], position + j).Ok?
      {
        assert j > 0 ==> ParseComponent(rest[j - 1], position + 1 + (j - 1)).Ok?;
      }
    }
  }

  /** A parse fails with the error of its first bad component, whatever follows. */
  lemma {:induction false} FirstErrorWins(parts: seq<string>, position: nat, e: PathError)
    ensures ParseComponents(parts, position) == Err(e) <==> exists i: nat :: FirstError(parts, position, e, i)
  {
    hide ParseComponent;
    if parts == [] {
    } else if ParseComponent(parts[0], position).Err? {
      assert ParseComponent(parts[0], position + 0) == ParseComponent(parts[0], position);
      if ParseComponents(parts, position) == Err(e) {
        assert FirstError(parts, position, e, 0);
      }
      forall i: nat | FirstError(parts, position, e, i)
        ensures i == 0
      {
      }
    } else {
      var rest, next := parts[1..], position + 1;
      FirstErrorWins(rest, next, e);
      if i: nat :| FirstError(rest, next, e, i) {
        FirstErrorStep(parts, position, e, i);
      }
      if i: nat :| FirstError(parts, position, e, i) {
        assert i > 0;
        FirstErrorStep(parts, position, e, i - 1);
      }
    }
  }

  // ---- the parser's theorems ---------------------------------------------------------------

  /** Where a joined path starts and ends. */
  lemma {:induction false} JoinEnds(cs: seq<Component>)
    requires cs != [] && AllWellFormed(cs)
    ensures var j := Join(cs);
            && j != []
            && (j[0] == '+' || IsDigit(j[0]))
            && (IsDigit(j[|j| - 1]) || IsSuffixChar(j[|j| - 1]))
  {
    var first := Show(cs[0]);
    assert first != [] && (first[0] == '+' || IsDigit(first[0]));
    if |cs| > 1 {
      JoinEnds(cs[1..]);
      var j, tail := Join(cs), Join(cs[1..]);
      assert j[|j| - 1] == tail[|tail| - 1];
    } else {
      assert IsDigit(first[|first| - 1]) || IsSuffixChar(first[|first| - 1]);
    }
  }

  lemma ShowHasNoSlash(c: Component)
    requires WellFormed(c)
    ensures NoSlash(Show(c))
  {
    hide DecimalValue;
  }

  lemma ShownHasNoSlash(cs: seq<Component>)
    requires AllWellFormed(cs)
    ensures forall i | 0 <= i < |cs| :: NoSlash(Shown(cs)[i])
  {
    hide DecimalValue, Shown;
    forall i | 0 <= i < |cs|
      ensures NoSlash(Shown(cs)[i])
    {
      ShowHasNoSlash(cs[i]);
    }
  }

  lemma NotBlank(c: char)
    ensures IsDigit(c) || IsSuffixChar(c) || c == '+' || c == 'm' ==> !IsWhitespace(c)
  {
  }

  /** Every path text is parsed to the indices of its components. */
  lemma PathTextParses(text: string, before: string, prefixes: nat, cs: seq<Component>, after: string)
    requires IsPathText(text, before, prefixes, cs, after)
    ensures ParseHardenedPath(text) == Ok(Indices(cs))
  {
    hide Show, ParseComponent, Index, WellFormed, IsWhitespace, ParseComponents, Split;
    var j := Join(cs);
    JoinEnds(cs);
    var middle := Prefixes(prefixes) + j;
    assert middle[|middle| - 1] == j[|j| - 1];
    assert prefixes > 0 ==> middle[0] == 'm';
    NotBlank(middle[0]);
    NotBlank(middle[|middle| - 1]);
    assert text == before + (middle + after);
    TrimStartExact(before, middle + after);
    TrimEndExact(middle, after);
    StripExact(prefixes, j);
    JoinOfShown(cs);
    ShownHasNoSlash(cs);
    SplitOfJoin(Shown(cs));
    ComponentsParse(cs, 0);
  }

  /** Whatever parses is a path text. */
  lemma ParsedIsPathText(text: string)
    returns (before: string, prefixes: nat, cs: seq<Component>, after: string)
    requires ParseHardenedPath(text).Ok?
    ensures IsPathText(text, before, prefixes, cs, after)
    ensures ParseHardenedPath(text) == Ok(Indices(cs))
  {
    hide Show, ParseComponent, Index, WellFormed, IsWhitespace, TrimStart, TrimEnd, StripPrefixes, Split;
    before := TrimStartWitness(text);
    var t := TrimStart(text);
    after := TrimEndWitness(t);
    prefixes := StripWitness(TrimEnd(t));
    var s := StripPrefixes(TrimEnd(t));
    cs := ComponentsWitness(Split(s), 0);
    JoinOfSplit(s);
    JoinOfShown(cs);
    assert text == before + ((Prefixes(prefixes) + s) + after);
  }

  /** The parser accepts exactly the path texts, and reads each as the indices it spells. */
  lemma ParsesExactly(text: string, path: seq<u32>)
    ensures ParseHardenedPath(text) == Ok(path) <==>
              exists before, prefixes: nat, cs, after ::
                IsPathText(text, before, prefixes, cs, after) && path == Indices(cs)
  {
    hide ParseHardenedPath, Text, AllWellFormed, Blank;
    if ParseHardenedPath(text) == Ok(path) {
      var before, prefixes, cs, after := ParsedIsPathText(text);
    }
    forall before, prefixes: nat, cs, after | IsPathText(text, before, prefixes, cs, after) && path == Indices(cs)
      ensures ParseHardenedPath(text) == Ok(path)
    {
      PathTextParses(text, before, prefixes, cs, after);
    }
  }

  /** Every index of a parsed path is hardened, and there is at least one. */
  lemma ParsedIsHardened(text: string)
    requires ParseHardenedPath(text).Ok?
    ensures ParseHardenedPath(text).value != []
    ensures forall i | 0 <= i < |ParseHardenedPath(text).value| :: ParseHardenedPath(text).value[i] >= HARDENED
  {
    hide ParseHardenedPath, Text, Show, WellFormed;
    var before, prefixes, cs, after := ParsedIsPathText(text);
  }

  /** Blanks of any kind around a text change nothing, not even the error. */
  lemma BlanksIgnored(before: string, text: string, after: string)
    requires Blank(before) && Blank(after)
    ensures ParseHardenedPath(before + text + after) == ParseHardenedPath(text)
  {
    hide Blank, TrimStart, TrimEnd, StripPrefixes, Split, ParseComponents;
    TrimBoth(before, text, after);
  }

  /** The characters of components, joined. */
  predicate JoinedChar(c: char) {
    '0' <= c <= '9' || c in "+/'hH"
  }

  lemma {:induction false} JoinedChars(cs: seq<Component>)
    requires cs != [] && AllWellFormed(cs)
    ensures forall i | 0 <= i < |Join(cs)| :: JoinedChar(Join(cs)[i])
  {
    hide DecimalValue;
    var first := Show(cs[0]);
    assert forall i | 0 <= i < |first| :: JoinedChar(first[i]);
    if |cs| == 1 {
    } else {
      JoinedChars(cs[1..]);
      var rest := Join(cs[1..]);
      assert Join(cs) == first + "/" + rest;
    }
  }

  lemma {:induction false} PrefixChars(n: nat)
    ensures forall i | 0 <= i < |Prefixes(n)| :: Prefixes(n)[i] in "m/"
  {
    if n == 0 {
    } else {
      PrefixChars(n - 1);
    }
  }

  /** The alphabet: a text with any other character does not parse. */
  lemma ParsedAlphabet(text: string)
    requires ParseHardenedPath(text).Ok?
    ensures forall i | 0 <= i < |text| ::
              var n := text[i] as int;
              || '0' <= text[i] <= '9' || text[i] in "+/m'hH"
              || 0x9 <= n <= 0xD || n == 0x20 || n == 0x85 || n == 0xA0 || n == 0x1680 || 0x2000 <= n <= 0x200A
              || n == 0x2028 || n == 0x2029 || n == 0x202F || n == 0x205F || n == 0x3000
  {
    hide ParseHardenedPath, Join, Prefixes, AllWellFormed, Indices;
    var before, prefixes, cs, after := ParsedIsPathText(text);
    JoinedChars(cs);
    PrefixChars(prefixes);
    var a, b := |before|, |before| + |Prefixes(prefixes)|;
    var c := b + |Join(cs)|;
    assert text[..a] == before && text[a..b] == Prefixes(prefixes) && text[b..c] == Join(cs) && text[c..] == after;
  }

  lemma JoinMore(c: Component, cs: seq<Component>)
    requires cs != []
    ensures Join([c] + cs) == Show(c) + "/" + Join(cs)
  {
    assert ([c] + cs)[1..] == cs;
  }

  lemma ShortNumbers()
    ensures DecimalValue("0") == 0 && DecimalValue("44") == 44 && DecimalValue("60") == 60
  {
    assert "44"[..1] == "4" && "60"[..1] == "6" && "4"[..0] == "" == "6"[..0] == "0"[..0];
    assert DecimalValue("4") == 4 && DecimalValue("6") == 6;
  }

  lemma JoinOne(c: Component)
    ensures Join([c]) == Show(c)
  {
  }

  const DEFAULT_COMPONENTS: seq<Component> :=
    [Component(false, "44", "'"), Component(false, "60", "'"), Component(false, "0", "'"),
     Component(false, "0", "'"), Component(false, "0", "'")]

  lemma DefaultShown()
    ensures Show(DEFAULT_COMPONENTS[0]) == "44'" && Show(DEFAULT_COMPONENTS[1]) == "60'"
    ensures forall i | 2 <= i < 5 :: Show(DEFAULT_COMPONENTS[i]) == "0'"
  {
  }

  lemma DefaultTail()
    ensures Join(DEFAULT_COMPONENTS[2..]) == "0'/0'/0'"
  {
    hide Join, Show;
    var z := DEFAULT_COMPONENTS[2];
    DefaultShown();
    JoinOne(z);
    JoinMore(z, [z]);
    JoinMore(z, [z] + [z]);
    assert DEFAULT_COMPONENTS[2..] == [z] + ([z] + [z]);
  }

  lemma DefaultText()
    ensures Text("", 1, DEFAULT_COMPONENTS, "") == "m/44'/60'/0'/0'/0'"
  {
    hide Join, Show;
    DefaultShown();
    DefaultTail();
    var a, b, tail := DEFAULT_COMPONENTS[0], DEFAULT_COMPONENTS[1], DEFAULT_COMPONENTS[2..];
    JoinMore(b, tail);
    JoinMore(a, [b] + tail);
    assert DEFAULT_COMPONENTS == [a] + ([b] + tail);
    assert Prefixes(1) == "m/" + Prefixes(0);
  }

  lemma DefaultIndices()
    ensures AllWellFormed(DEFAULT_COMPONENTS)
    ensures Indices(DEFAULT_COMPONENTS) == [0x8000_002C, 0x8000_003C, 0x8000_0000, 0x8000_0000, 0x8000_0000]
  {
    hide DecimalValue, Indices;
    ShortNumbers();
  }

  /** The default path of src/api.rs. */
  lemma DefaultPathParses()
    ensures ParseHardenedPath("m/44'/60'/0'/0'/0'")
         == Ok([0x8000_002C, 0x8000_003C, 0x8000_0000, 0x8000_0000, 0x8000_0000])
  {
    hide Text, AllWellFormed, Indices, ParseHardenedPath;
    DefaultText();
    DefaultIndices();
    PathTextParses("m/44'/60'/0'/0'/0'", "", 1, DEFAULT_COMPONENTS, "");
  }

  // ---- the errors, on the text ---------------------------------------------------------------

  /** Nothing but blanks around any number of "m/". */
  ghost predicate IsEmptyPath(text: string, before: string, prefixes: nat, after: string) {
    Blank(before) && Blank(after) && text == before + Prefixes(prefixes) + after
  }

  /**
   Blanks, every leading "m/", the components between slashes, blanks: the blanks and the
   prefixes are as many as there are, and something is left.
   */
  ghost predicate HasComponents(text: string, before: string, prefixes: nat, parts: seq<string>, after: string) {
    && Blank(before) && Blank(after)
    && parts != [] && (forall i | 0 <= i < |parts| :: NoSlash(parts[i]))
    && var core := JoinStrings(parts);
    && core != [] && !("m/" <= core) && !IsWhitespace(core[|core| - 1])
    && (prefixes == 0 ==> !IsWhitespace(core[0]))
    && text == before + (Prefixes(prefixes) + core) + after
  }

  lemma {:induction false} PrefixesEnds(n: nat)
    ensures n > 0 ==> Prefixes(n) != [] && Prefixes(n)[0] == 'm' && !IsWhitespace(Prefixes(n)[|Prefixes(n)| - 1])
    ensures n == 0 ==> Prefixes(n) == []
  {
    if n <= 1 {
      assert n == 1 ==> Prefixes(1) == "m/";
    } else {
      PrefixesEnds(n - 1);
    }
  }

  lemma CoreOf(text: string, before: string, prefixes: nat, core: string, after: string)
    requires Blank(before) && Blank(after) && text == before + (Prefixes(prefixes) + core) + after
    requires !("m/" <= core) && (core != [] ==> !IsWhitespace(core[|core| - 1]))
    requires core != [] && prefixes == 0 ==> !IsWhitespace(core[0])
    ensures StripPrefixes(TrimEnd(TrimStart(text))) == core
  {
    hide IsWhitespace, TrimStart, TrimEnd, StripPrefixes;
    var middle := Prefixes(prefixes) + core;
    PrefixesEnds(prefixes);
    NotBlank('m');
    if middle != [] {
      assert text == before + (middle + after);
      TrimStartExact(before, middle + after);
      TrimEndExact(middle, after);
    } else {
      assert text == (before + after) + [];
      TrimStartExact(before + after, []);
      TrimEndExact([], []);
      assert [] + [] == middle;
    }
    StripExact(prefixes, core);
  }

  lemma {:induction false} TrimStartHead(s: string)
    ensures TrimStart(s) != [] ==> !IsWhitespace(TrimStart(s)[0])
  {
    hide IsWhitespace;
    if s == [] || !IsWhitespace(s[0]) {
    } else {
      TrimStartHead(s[1..]);
    }
  }

  lemma {:induction false} TrimEndLast(s: string)
    ensures TrimEnd(s) != [] ==> !IsWhitespace(TrimEnd(s)[|TrimEnd(s)| - 1])
  {
    hide IsWhitespace;
    if s == [] || !IsWhitespace(s[|s| - 1]) {
    } else {
      TrimEndLast(s[..|s| - 1]);
    }
  }

  /** The two ends of a trimmed text are not blank. */
  lemma TrimmedEnds(text: string)
    ensures var t := TrimEnd(TrimStart(text));
            t != [] ==> !IsWhitespace(t[0]) && !IsWhitespace(t[|t| - 1])
  {
    hide IsWhitespace;
    TrimStartHead(text);
    TrimEndLast(TrimStart(text));
    var blank := TrimEndWitness(TrimStart(text));
  }

  lemma {:induction false} StripLeavesNoPrefix(s: string)
    ensures !("m/" <= StripPrefixes(s))
  {
    if !("m/" <= s) {
    } else {
      StripLeavesNoPrefix(s[2..]);
    }
  }

  lemma {:induction false} SplitHasNoSlash(s: string)
    ensures forall i | 0 <= i < |Split(s)| :: NoSlash(Split(s)[i])
  {
    if s == [] {
    } else {
      SplitHasNoSlash(s[1..]);
    }
  }

  /** What the trimming leaves of a text, put back together. */
  lemma Decomposed(text: string) returns (before: string, prefixes: nat, after: string)
    ensures var core := StripPrefixes(TrimEnd(TrimStart(text)));
            if core == [] then IsEmptyPath(text, before, prefixes, after)
            else HasComponents(text, before, prefixes, Split(core), after)
  {
    hide IsWhitespace, TrimStart, TrimEnd, StripPrefixes, Split, Prefixes, JoinStrings, Blank, NoSlash;
    before := TrimStartWitness(text);
    after := TrimEndWitness(TrimStart(text));
    var t := TrimEnd(TrimStart(text));
    prefixes := StripWitness(t);
    var core := StripPrefixes(t);
    TrimmedEnds(text);
    StripLeavesNoPrefix(t);
    JoinOfSplit(core);
    SplitHasNoSlash(core);
    PrefixesEnds(prefixes);
    assert text == before + (Prefixes(prefixes) + core) + after;
    if core == [] {
      assert Prefixes(prefixes) + core == Prefixes(prefixes);
    } else {
      assert t[|t| - 1] == core[|core| - 1];
      assert prefixes == 0 ==> t == core;
    }
  }

  /** The components of a text are what the parser works on: there is one way to read it. */
  lemma ComponentsOf(text: string, before: string, prefixes: nat, parts: seq<string>, after: string)
    requires HasComponents(text, before, prefixes, parts, after)
    ensures var core := StripPrefixes(TrimEnd(TrimStart(text)));
            core != [] && Split(core) == parts
  {
    hide IsWhitespace, TrimStart, TrimEnd, StripPrefixes, Split;
    CoreOf(text, before, prefixes, JoinStrings(parts), after);
    SplitOfJoin(parts);
  }

  /** A text is refused as empty exactly when it is blank but for prefixes. */
  lemma EmptyExactly(text: string)
    ensures ParseHardenedPath(text) == Err(EmptyPath) <==>
              exists before, prefixes: nat, after :: IsEmptyPath(text, before, prefixes, after)
  {
    hide IsWhitespace, TrimStart, TrimEnd, StripPrefixes, Split, Prefixes, ParseComponent, HasComponents;
    var s := StripPrefixes(TrimEnd(TrimStart(text)));
    var before, prefixes, after := Decomposed(text);
    FirstErrorWins(Split(s), 0, EmptyPath);
    forall i: nat
      ensures !FirstError(Split(s), 0, EmptyPath, i)
    {
      if i < |Split(s)| {
        ComponentOutcome(Split(s)[i], 0 + i);
      }
    }
    forall before, prefixes: nat, after | IsEmptyPath(text, before, prefixes, after)
      ensures s == []
    {
      assert Prefixes(prefixes) + [] == Prefixes(prefixes);
      CoreOf(text, before, prefixes, [], after);
    }
  }

  /** Component i is the first that spells no index, and e says in which way. */
  ghost predicate FirstBad(parts: seq<string>, e: PathError, i: nat) {
    && i < |parts| && !SpellsIndex(parts[i])
    && e == (if TooLarge(parts[i]) then IndexTooLarge(i) else InvalidIndex(i))
    && forall j | 0 <= j < i :: SpellsIndex(parts[j])
  }

  lemma FirstErrorIsFirstBad(parts: seq<string>, e: PathError, i: nat)
    ensures FirstError(parts, 0, e, i) <==> FirstBad(parts, e, i)
  {
    hide ParseComponent, SpellsIndex, TooLarge;
    forall j | 0 <= j < |parts|
      ensures ParseComponent(parts[j], 0 + j).Ok? <==> SpellsIndex(parts[j])
    {
      ComponentOutcome(parts[j], j);
    }
    if i < |parts| {
      ComponentOutcome(parts[i], i);
    }
  }

  /** Every other refusal names the first component of the text that spells no index, and why. */
  lemma ErrorsExactly(text: string, e: PathError)
    requires e != EmptyPath
    ensures ParseHardenedPath(text) == Err(e) <==>
              exists before, prefixes: nat, parts, after, i: nat ::
                HasComponents(text, before, prefixes, parts, after) && FirstBad(parts, e, i)
  {
    hide TrimStart, TrimEnd, StripPrefixes, Split, HasComponents, FirstBad, FirstError, ParseComponents;
    var s := StripPrefixes(TrimEnd(TrimStart(text)));
    if ParseHardenedPath(text) == Err(e) {
      var before, prefixes, after := Decomposed(text);
      FirstErrorWins(Split(s), 0, e);
      var i: nat :| FirstError(Split(s), 0, e, i);
      FirstErrorIsFirstBad(Split(s), e, i);
      assert HasComponents(text, before, prefixes, Split(s), after) && FirstBad(Split(s), e, i);
    }
    forall before, prefixes: nat, parts, after, i: nat |
      HasComponents(text, before, prefixes, parts, after) && FirstBad(parts, e, i)
      ensures ParseHardenedPath(text) == Err(e)
    {
      ComponentsOf(text, before, prefixes, parts, after);
      FirstErrorIsFirstBad(parts, e, i);
      FirstErrorWins(parts, 0, e);
    }
  }

  // ---- printing ---------------------------------------------------------------------------

  function Digit(n: nat): (c: char)
    requires n < 10
    ensures IsDigit(c) && c as int - '0' as int == n
  {
    ('0' as int + n) as char
  }

  /** One more digit behind a decimal number. */
  lemma DecimalAppend(front: string, c: char)
    requires AllDigits(front) && IsDigit(c)
    ensures AllDigits(front + [c])
    ensures DecimalValue(front + [c]) == 10 * DecimalValue(front) + (c as int - '0' as int)
  {
    assert (front + [c])[..|front|] == front;
  }

  lemma NoDigits()
    ensures AllDigits([]) && DecimalValue([]) == 0
  {
  }

  /** Decimal digits without leading zeros. */
  function Decimal(n: nat): (s: string)
    ensures s != [] && AllDigits(s) && DecimalValue(s) == n
  {
    hide AllDigits, DecimalValue, Digit;
    var front := if n < 10 then NoDigits(); [] else Decimal(n / 10);
    DecimalAppend(front, Digit(n % 10));
    front + [Digit(n % 10)]
  }

  /** An index as a component: its low 31 bits in decimal. */
  function PrintedIndex(index: u32, suffix: string): Component {
    Component(false, Decimal(index % HARDENED), suffix)
  }

  function Printed(path: seq<u32>, suffix: string): (cs: seq<Component>)
    ensures |cs| == |path|
    ensures forall i | 0 <= i < |path| :: cs[i] == PrintedIndex(path[i], suffix)
  {
    hide PrintedIndex;
    seq(|path|, i requires 0 <= i < |path| => PrintedIndex(path[i], suffix))
  }

  /** Decimal components, each with the same suffix, with or without "m/" in front. */
  function PrintPath(path: seq<u32>, root: bool, suffix: string): string
    requires path != []
  {
    (if root then "m/" else "") + Join(Printed(path, suffix))
  }

  /** A printed hardened index is a well-formed component that spells it. */
  lemma PrintedIndexSpells(index: u32, suffix: string)
    requires index >= HARDENED && forall i | 0 <= i < |suffix| :: suffix[i] in "'hH"
    ensures WellFormed(PrintedIndex(index, suffix)) && Index(PrintedIndex(index, suffix)) == index
  {
    hide Decimal, DecimalValue, AllDigits;
  }

  lemma PrintedSpells(path: seq<u32>, suffix: string)
    requires forall i | 0 <= i < |path| :: path[i] >= HARDENED
    requires forall i | 0 <= i < |suffix| :: suffix[i] in "'hH"
    ensures AllWellFormed(Printed(path, suffix)) && Indices(Printed(path, suffix)) == path
  {
    hide PrintedIndex, WellFormed, Index, Printed, Indices;
    var cs := Printed(path, suffix);
    forall i | 0 <= i < |path|
      ensures WellFormed(cs[i]) && Index(cs[i]) == path[i]
    {
      PrintedIndexSpells(path[i], suffix);
    }
  }

  /** Printing and parsing are inverse on non-empty hardened paths. */
  lemma PrintedPathParses(path: seq<u32>, root: bool, suffix: string)
    requires path != [] && forall i | 0 <= i < |path| :: path[i] >= 0x8000_0000
    requires forall i | 0 <= i < |suffix| :: suffix[i] in "'hH"
    ensures ParseHardenedPath(PrintPath(path, root, suffix)) == Ok(path)
  {
    hide Printed, Join, ParseHardenedPath, AllWellFormed, Indices;
    var cs := Printed(path, suffix);
    PrintedSpells(path, suffix);
    var text := PrintPath(path, root, suffix);
    var n := if root then 1 else 0;
    assert Prefixes(n) == if root then "m/" else "";
    assert text == [] + Prefixes(n) + Join(cs) + [];
    PathTextParses(text, [], n, cs, []);
  }

  lemma {:induction false} TrimEndBehind(front: string, s: string)
    requires s != [] && !IsWhitespace(s[0])
    ensures TrimEnd(front + s) == front + TrimEnd(s)
  {
    hide IsWhitespace;
    if !IsWhitespace(s[|s| - 1]) {
    } else {
      assert (front + s)[..|front + s| - 1] == front + s[..|s| - 1];
      TrimEndBehind(front, s[..|s| - 1]);
    }
  }

  /**
   The documentation allows one leading "m/"; the code removes any number of them, here in
   front of every text that does not start with a blank.
   */
  lemma PrefixIgnored(text: string)
    requires text != [] && !IsWhitespace(text[0])
    ensures ParseHardenedPath("m/" + text) == ParseHardenedPath(text)
  {
    hide IsWhitespace, Split, ParseComponents;
    NotBlank('m');
    var e := TrimEnd(text);
    TrimStartExact([], text);
    assert [] + text == text;
    TrimStartExact([], "m/" + text);
    assert [] + ("m/" + text) == "m/" + text;
    TrimEndBehind("m/", text);
    assert ("m/" + e)[2..] == e;
  }
}
