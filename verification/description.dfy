/** The labelled facts Kombo writes into a job description
    ("Cidade/UF:", "Ramo de atividade:", "Número de vagas:", "Área:") and how
    the plugin's case-insensitive patterns recover them from the cleaned text.

    The text is PHP's byte string: one `char` stands for one byte, so the
    UTF-8 letter "ú" is the two characters '\U{C3}' '\U{BA}'. Case folding is
    ASCII only, as PCRE does without the /u flag. Every pattern is unanchored:
    the leftmost label occurrence at which the whole pattern can match wins. */
module Description {
  import opened Common
  import opened Strings
  import CleanText

  /** What parse_description returns: empty strings and 0 when a label is absent. */
  datatype Info = Info(cidade: string, estado: string, ramo: string, numVagas: nat, area: string)

  const Defaults := Info("", "", "", 0, "")

  const CityLabel := "Cidade/UF:"
  const BranchLabel := "Ramo de atividade"
  const CompanySuffix := "da empresa"
  /** The label "Número de vagas:" after its first two letters. */
  const CountTail := "mero de vagas:"
  /** The label "Área:" after its first letter. */
  const AreaTail := "rea:"

  /** `lit` occurs at `p`, ignoring ASCII case. */
  predicate LiteralAt(s: string, lit: string, p: nat) {
    p + |lit| <= |s| && Lower(s[p..p + |lit|]) == Lower(lit)
  }

  /** A character of the class `[^\/\n]`. */
  predicate IsCityChar(c: char) {
    c != '/' && c != '\n'
  }

  /** The value of `\s*([^\n]+)` matched at `a`, trimmed. The greedy `\s*`
      gives characters back when nothing else is left on the line: then the
      group is the last non-newline character, which only survives trimming
      when it is a form feed. */
  function RestOfLine(s: string, a: nat): (r: string)
    requires a <= |s|
    ensures '\n' !in r
    ensures r == [] || (!IsPhpTrimSpace(r[0]) && !IsPhpTrimSpace(r[|r| - 1]))
  {
    var b := SkipWhile(s, a, IsPcreSpace);
    if b < |s| then
      var e := SkipWhile(s, b, NotNewline);
      NotInSlice(s, b, e, '\n');
      Trim(s[b..e])
    else
      match LastWhere(s, a, |s|, NotNewline)
      case Some(g) => Trim(s[g..g + 1])
      case None => []
  }

  // ---------------------------------------------------------------------
  // Cidade/UF
  // ---------------------------------------------------------------------

  /** Start of the city group (after `\s*`) for a label at `p`. */
  function CityStart(s: string, p: nat): (b: nat)
    requires p + |CityLabel| <= |s|
    ensures p + |CityLabel| <= b <= |s|
  {
    SkipWhile(s, p + |CityLabel|, IsPcreSpace)
  }

  /** Position of the first '/' or newline after the city group starts. */
  function CitySlash(s: string, p: nat): (q: nat)
    requires p + |CityLabel| <= |s|
    ensures CityStart(s, p) <= q <= |s|
  {
    SkipWhile(s, CityStart(s, p), IsCityChar)
  }

  /** `Cidade\/UF:\s*([^\/\n]+)\/([A-Z]{2})` matches at `p`. The group must be
      non-empty; when the text right after `\s*` is already the slash, the
      pattern can still match by handing the last whitespace character back
      to the group, unless that character is a newline. */
  predicate CityStrictAt(s: string, p: nat) {
    LiteralAt(s, CityLabel, p) &&
    var a := p + |CityLabel|;
    var b := CityStart(s, p);
    var q := CitySlash(s, p);
    q + 2 < |s| && s[q] == '/' && IsAsciiLetter(s[q + 1]) && IsAsciiLetter(s[q + 2]) &&
    (b < q || (a < b && s[b - 1] != '\n'))
  }

  /** The two-letter state at the end of a location, if `(.+)\/([A-Z]{2})$`
      matches it. */
  predicate HasStateSuffix(loc: string) {
    |loc| >= 4 && loc[|loc| - 3] == '/' && IsAsciiLetter(loc[|loc| - 2]) && IsAsciiLetter(loc[|loc| - 1])
  }

  /** A location line split into city and state: the state is two letters
      after the last slash, or absent. A location is one line of text. */
  function SplitLocation(loc: string): (r: (string, string))
    requires '\n' !in loc
    ensures r.1 == [] || (|r.1| == 2 && IsAsciiLetter(r.1[0]) && IsAsciiLetter(r.1[1]))
    ensures r.1 == [] ==> r.0 == loc
    ensures '\n' !in r.0
  {
    if HasStateSuffix(loc) then (Trim(loc[..|loc| - 3]), loc[|loc| - 2..])
    else (loc, [])
  }

  /** Where the city group of the strict pattern matched at `p` starts: after
      the whitespace, or on its last character when the group would
      otherwise be empty. */
  function GroupStart(s: string, p: nat): (g: nat)
    requires CityStrictAt(s, p)
    ensures p + |CityLabel| <= g < CitySlash(s, p)
    ensures forall k :: g <= k < CitySlash(s, p) ==> s[k] != '\n'
  {
    var b := CityStart(s, p);
    if b == CitySlash(s, p) then b - 1 else b
  }

  /** City and state as the groups of the strict pattern matched at `p`. */
  function StrictCity(s: string, p: nat): (r: (string, string))
    requires CityStrictAt(s, p)
    ensures |r.1| == 2 && IsAsciiLetter(r.1[0]) && IsAsciiLetter(r.1[1])
    ensures '\n' !in r.0
  {
    var g := GroupStart(s, p);
    var q := CitySlash(s, p);
    NotInSlice(s, g, q, '\n');
    (Trim(s[g..q]), s[q + 1..q + 3])
  }

  /** City and state from the whole line after the label at `p`. */
  function LooseCity(s: string, p: nat): (r: (string, string))
    requires p + |CityLabel| <= |s|
    ensures r.1 == [] || (|r.1| == 2 && IsAsciiLetter(r.1[0]) && IsAsciiLetter(r.1[1]))
    ensures '\n' !in r.0
  {
    SplitLocation(RestOfLine(s, p + |CityLabel|))
  }

  /** The tests the two city patterns apply at each position. */
  function StrictCityTest(s: string): nat -> bool {
    (p: nat) => CityStrictAt(s, p)
  }

  function CityLabelTest(s: string): nat -> bool {
    (p: nat) => LiteralAt(s, CityLabel, p)
  }

  /** City and state: the strict pattern anywhere in the text first, then the
      whole line after the first label, split at a trailing "/UF". */
  function ExtractCity(s: string): (r: (string, string))
    ensures r.1 == [] || (|r.1| == 2 && IsAsciiLetter(r.1[0]) && IsAsciiLetter(r.1[1]))
    ensures '\n' !in r.0
    ensures (forall p :: 0 <= p <= |s| ==> !LiteralAt(s, CityLabel, p)) ==> r == ([], [])
  {
    match FirstWhere(0, |s|, StrictCityTest(s))
    case Some(p) => StrictCity(s, p)
    case None =>
      match FirstWhere(0, |s|, CityLabelTest(s))
      case Some(p) => LooseCity(s, p)
      case None => ([], [])
  }

  // ---------------------------------------------------------------------
  // Ramo de atividade
  // ---------------------------------------------------------------------

  /** Where `Ramo de atividade(?:\s*da empresa)?:` ends when it matches at `p`. */
  function BranchLabelEnd(s: string, p: nat): (r: Option<nat>)
    ensures r.Some? ==> p < r.value <= |s| && s[r.value - 1] == ':'
  {
    if !LiteralAt(s, BranchLabel, p) then None
    else
      var e := p + |BranchLabel|;
      if e < |s| && s[e] == ':' then Some(e + 1)
      else
        var w := SkipWhile(s, e, IsPcreSpace);
        var c := w + |CompanySuffix|;
        if LiteralAt(s, CompanySuffix, w) && c < |s| && s[c] == ':' then Some(c + 1)
        else None
  }

  function BranchTest(s: string): nat -> bool {
    (p: nat) => BranchLabelEnd(s, p).Some?
  }

  function ExtractBranch(s: string): (r: string)
    ensures '\n' !in r
    ensures (forall p :: 0 <= p <= |s| ==> !LiteralAt(s, BranchLabel, p)) ==> r == []
  {
    match FirstWhere(0, |s|, BranchTest(s))
    case Some(p) => RestOfLine(s, BranchLabelEnd(s, p).value)
    case None => []
  }

  // ---------------------------------------------------------------------
  // Número de vagas
  // ---------------------------------------------------------------------

  /** Where the label "Número de vagas:" ends at `p`, read as intended: the
      second letter is u or ú in either case, ú being two bytes in UTF-8. */
  function CountLabelEnd(s: string, p: nat): (r: Option<nat>)
    ensures r.Some? ==> p < r.value <= |s|
  {
    if p + 1 < |s| && LowerChar(s[p]) == 'n' && LowerChar(s[p + 1]) == 'u' && LiteralAt(s, CountTail, p + 2) then
      Some(p + 2 + |CountTail|)
    else if p + 2 < |s| && LowerChar(s[p]) == 'n' && s[p + 1] == '\U{C3}' && (s[p + 2] == '\U{BA}' || s[p + 2] == '\U{9A}')
      && LiteralAt(s, CountTail, p + 3) then
      Some(p + 3 + |CountTail|)
    else None
  }

  /** The same label as the pattern `N[uú]mero de vagas:` reads it without the
      /u flag: the class `[uú]` is ONE byte, any of u, U, 0xC3 and 0xBA. */
  function CountLabelEndAsWritten(s: string, p: nat): (r: Option<nat>)
    ensures r.Some? ==> r.value == p + 2 + |CountTail| <= |s|
  {
    if p + 1 < |s| && LowerChar(s[p]) == 'n'
      && (LowerChar(s[p + 1]) == 'u' || s[p + 1] == '\U{C3}' || s[p + 1] == '\U{BA}')
      && LiteralAt(s, CountTail, p + 2) then
      Some(p + 2 + |CountTail|)
    else None
  }

  /** `\s*(\d+)` matches at `e`. */
  predicate DigitsFollow(s: string, e: nat) {
    e <= |s| &&
    var b := SkipWhile(s, e, IsPcreSpace);
    b < |s| && IsDigit(s[b])
  }

  /** The number `(int)` reads from the digit run after `e`. */
  function DigitsAfter(s: string, e: nat): (n: nat)
    requires DigitsFollow(s, e)
  {
    var b := SkipWhile(s, e, IsPcreSpace);
    var d := SkipWhile(s, b, IsDigit);
    DigitsValue(s[b..d])
  }

  /** The count pattern, with the label recognised by `labelEnd`, matches at `p`. */
  predicate CountAt(s: string, labelEnd: (string, nat) -> Option<nat>, p: nat) {
    labelEnd(s, p).Some? && DigitsFollow(s, labelEnd(s, p).value)
  }

  /** The count after the first label (as `labelEnd` recognises it) that is
      followed by digits; 0 when there is none. */
  function CountTest(s: string, labelEnd: (string, nat) -> Option<nat>): nat -> bool {
    (p: nat) => CountAt(s, labelEnd, p)
  }

  function CountWith(s: string, labelEnd: (string, nat) -> Option<nat>): (n: nat)
  {
    match FirstWhere(0, |s|, CountTest(s, labelEnd))
    case Some(p) => DigitsAfter(s, labelEnd(s, p).value)
    case None => 0
  }

  /** The number of positions, as the plugin should read it. */
  function ExtractCount(s: string): (n: nat)
    ensures (forall p :: 0 <= p <= |s| ==> CountLabelEnd(s, p).None?) ==> n == 0
  {
    CountWith(s, CountLabelEnd)
  }

  /** The number of positions, as the pattern in the source reads it. */
  function ExtractCountAsWritten(s: string): (n: nat)
    ensures (forall p :: 0 <= p <= |s| ==> CountLabelEndAsWritten(s, p).None?) ==> n == 0
  {
    CountWith(s, CountLabelEndAsWritten)
  }

  // ---------------------------------------------------------------------
  // Área
  // ---------------------------------------------------------------------

  /** Where `[AÁ]rea:` ends at `p`. Without /u the class is one byte among
      A, a (by /i), 0xC3 and 0x81. The label "Área:" (0xC3 0x81 "rea:") still
      matches, through its second byte; "área:" (0xC3 0xA1) does not. */
  function AreaLabelEnd(s: string, p: nat): (r: Option<nat>)
    ensures r.Some? ==> r.value == p + 1 + |AreaTail| <= |s|
  {
    if p < |s| && (LowerChar(s[p]) == 'a' || s[p] == '\U{C3}' || s[p] == '\U{81}') && LiteralAt(s, AreaTail, p + 1) then
      Some(p + 1 + |AreaTail|)
    else None
  }

  function AreaTest(s: string): nat -> bool {
    (p: nat) => AreaLabelEnd(s, p).Some?
  }

  function ExtractArea(s: string): (r: string)
    ensures '\n' !in r
  {
    match FirstWhere(0, |s|, AreaTest(s))
    case Some(p) => RestOfLine(s, AreaLabelEnd(s, p).value)
    case None => []
  }

  // ---------------------------------------------------------------------
  // parse_description
  // ---------------------------------------------------------------------

  /** All fields of an already cleaned description. */
  function Extract(s: string): (r: Info)
    ensures r.estado == [] || (|r.estado| == 2 && IsAsciiLetter(r.estado[0]) && IsAsciiLetter(r.estado[1]))
    ensures '\n' !in r.cidade && '\n' !in r.ramo && '\n' !in r.area
  {
    var city := ExtractCity(s);
    Info(city.0, city.1, ExtractBranch(s), ExtractCount(s), ExtractArea(s))
  }

  /** parse_description: an empty description ("" or "0") yields the defaults;
      otherwise the HTML is cleaned first and the labels are read from it. */
  function ParseDescription(toText: string -> string, raw: string): (r: Info)
    ensures PhpEmpty(raw) ==> r == Defaults
    ensures '\n' !in r.cidade && '\n' !in r.ramo && '\n' !in r.area
    ensures r.estado == [] || (|r.estado| == 2 && IsAsciiLetter(r.estado[0]) && IsAsciiLetter(r.estado[1]))
  {
    if PhpEmpty(raw) then Defaults else Extract(CleanText.CleanHtml(toText, raw))
  }

  // ---------------------------------------------------------------------
  // What the patterns recover
  // ---------------------------------------------------------------------

  /** The label as Kombo writes it, without and with the accent on the u. */
  const CountLabelPlain := "Nu" + CountTail
  const CountLabelAccented := "N\U{C3}\U{BA}" + CountTail

  /** An occurrence starting inside `pre` only sees `pre + lit`. */
  lemma LiteralAtInPrefix(pre: string, lit: string, rest: string, p: nat)
    requires p < |pre|
    ensures LiteralAt(pre + lit + rest, lit, p) == LiteralAt(pre + lit, lit, p)
  {
    var s := pre + lit + rest;
    if p + |lit| <= |pre + lit| {
      assert s[p..p + |lit|] == (pre + lit)[p..p + |lit|];
    }
  }

  /** Whitespace on [a, b), then a line running to `e`: the value is that line, trimmed. */
  lemma RestOfLineSpan(s: string, a: nat, b: nat, e: nat)
    requires a <= b < e <= |s|
    requires forall k :: a <= k < b ==> IsPcreSpace(s[k])
    requires !IsPcreSpace(s[b])
    requires forall k :: b <= k < e ==> s[k] != '\n'
    requires e == |s| || s[e] == '\n'
    ensures RestOfLine(s, a) == Trim(s[b..e])
  {
    SkipWhileUnique(s, a, b, IsPcreSpace);
    SkipWhileUnique(s, b, e, NotNewline);
  }

  /** The value after a label is the rest of its line, trimmed. */
  lemma RestOfLineAt(s: string, a: nat, v: string)
    requires a + |v| <= |s| && s[a..a + |v|] == v
    requires '\n' !in v && !All(v, IsPcreSpace)
    requires a + |v| == |s| || s[a + |v|] == '\n'
    ensures RestOfLine(s, a) == Trim(TrimStart(v, IsPcreSpace))
  {
    var j := SkipWhile(v, 0, IsPcreSpace);
    var b, e := a + j, a + |v|;
    forall k | a <= k < b
      ensures IsPcreSpace(s[k])
    {
      assert s[a..e][k - a] == s[k];
    }
    forall k | b <= k < e
      ensures s[k] != '\n'
    {
      assert s[a..e][k - a] == s[k];
    }
    assert s[a..e][j] == s[b];
    RestOfLineSpan(s, a, b, e);
    EmbeddedSuffix(s, a, v, j);
    assert s[b..e] == v[j..];
    assert TrimStart(v, IsPcreSpace) == v[j..];
  }

  /** When the strict pattern first matches at `P`, city and state are its groups. */
  lemma StrictCityIsUsed(s: string, P: nat)
    requires P <= |s| && CityStrictAt(s, P)
    requires forall p :: 0 <= p < P ==> !CityStrictAt(s, p)
    ensures ExtractCity(s) == StrictCity(s, P)
  {
    FirstWhereIs(0, |s|, StrictCityTest(s), P);
  }

  /** Where the group of the strict pattern starts and stops: after the
      whitespace run [a, b), at the end of the run [b, e) of the group's class. */
  lemma CityGroupBounds(s: string, P: nat, b: nat, e: nat)
    requires P + |CityLabel| <= b <= e <= |s|
    requires forall k :: P + |CityLabel| <= k < b ==> IsPcreSpace(s[k])
    requires b == |s| || !IsPcreSpace(s[b])
    requires forall k :: b <= k < e ==> IsCityChar(s[k])
    requires e == |s| || !IsCityChar(s[e])
    ensures CityStart(s, P) == b && CitySlash(s, P) == e
  {
    SkipWhileUnique(s, P + |CityLabel|, b, IsPcreSpace);
    SkipWhileUnique(s, b, e, IsCityChar);
  }

  /** The characters of an embedded copy of `x`. */
  lemma EmbeddedChars(s: string, a: nat, x: string)
    requires a + |x| <= |s| && s[a..a + |x|] == x
    ensures forall k :: a <= k < a + |x| ==> s[k] == x[k - a]
  {
    forall k | a <= k < a + |x|
      ensures s[k] == x[k - a]
    {
      assert s[a..a + |x|][k - a] == s[k];
    }
  }

  /** The city group the strict pattern captures from a city text `x` that
      runs up to the slash: `x` after its leading whitespace, or, when `x` is
      all whitespace, its last character, which the pattern hands back. */
  function CityGroup(x: string): (g: string)
    requires x != []
    ensures g != [] && |g| <= |x| && g == x[|x| - |g|..]
    ensures All(x, IsPcreSpace) ==> |g| == 1
    ensures !All(x, IsPcreSpace) ==> g == TrimStart(x, IsPcreSpace)
  {
    if All(x, IsPcreSpace) then x[|x| - 1..] else TrimStart(x, IsPcreSpace)
  }

  /** The strict pattern matches at `P` when a city and a two-letter state follow the label. */
  lemma CityStrictMatches(s: string, P: nat, x: string, uf: string)
    requires x != [] && All(x, IsCityChar)
    requires |uf| == 2 && IsAsciiLetter(uf[0]) && IsAsciiLetter(uf[1])
    requires P + |CityLabel| + |x| + 3 <= |s|
    requires s[P..P + |CityLabel|] == CityLabel
    requires s[P + |CityLabel|..P + |CityLabel| + |x|] == x
    requires s[P + |CityLabel| + |x|] == '/'
    requires s[P + |CityLabel| + |x| + 1..P + |CityLabel| + |x| + 3] == uf
    ensures CityStrictAt(s, P)
    ensures StrictCity(s, P) == (Trim(CityGroup(x)), uf)
  {
    var a := P + |CityLabel|;
    var e := a + |x|;
    var j := SkipWhile(x, 0, IsPcreSpace);
    assert CityStart(s, P) == a + j && CitySlash(s, P) == e && CityStrictAt(s, P) by {
      EmbeddedChars(s, a, x);
      CityGroupBounds(s, P, a + j, e);
      assert s[e + 1] == uf[0] && s[e + 2] == uf[1];
      assert a + j < e || s[e - 1] == x[|x| - 1];
    }
    assert s[e + 1..e + 3] == uf;
    CityGroupOfText(x, j);
    if j < |x| {
      StrictCityAfterSpaces(s, P, a, x, j, uf);
    } else {
      StrictCityAllSpaces(s, P, a, x, uf);
    }
  }

  /** The city group of a city text whose first non-blank is at `j`. */
  lemma CityGroupOfText(x: string, j: nat)
    requires x != [] && j == SkipWhile(x, 0, IsPcreSpace)
    ensures j < |x| ==> CityGroup(x) == x[j..]
    ensures j == |x| ==> CityGroup(x) == x[|x| - 1..]
  {
    if j < |x| {
      assert !IsPcreSpace(x[j]);
    }
  }

  /** The groups when the city text has a non-blank at `j`. */
  lemma StrictCityAfterSpaces(s: string, P: nat, a: nat, x: string, j: nat, uf: string)
    requires CityStrictAt(s, P) && j < |x|
    requires a == P + |CityLabel| && a + |x| + 3 <= |s| && s[a..a + |x|] == x
    requires CityStart(s, P) == a + j && CitySlash(s, P) == a + |x|
    requires s[a + |x| + 1..a + |x| + 3] == uf
    ensures StrictCity(s, P) == (Trim(x[j..]), uf)
  {
    assert GroupStart(s, P) == a + j;
    EmbeddedSuffix(s, a, x, j);
    StrictCityGroups(s, P, a + j, a + |x|, x[j..], uf);
  }

  /** The groups when the city text is all blank: its last character is handed back. */
  lemma StrictCityAllSpaces(s: string, P: nat, a: nat, x: string, uf: string)
    requires CityStrictAt(s, P) && x != []
    requires a == P + |CityLabel| && a + |x| + 3 <= |s| && s[a..a + |x|] == x
    requires CityStart(s, P) == a + |x| && CitySlash(s, P) == a + |x|
    requires s[a + |x| + 1..a + |x| + 3] == uf
    ensures StrictCity(s, P) == (Trim(x[|x| - 1..]), uf)
  {
    assert GroupStart(s, P) == a + |x| - 1;
    EmbeddedSuffix(s, a, x, |x| - 1);
    StrictCityGroups(s, P, a + |x| - 1, a + |x|, x[|x| - 1..], uf);
  }

  /** StrictCity returns the trimmed city group and the state group. */
  lemma StrictCityGroups(s: string, P: nat, g0: nat, q: nat, g: string, uf: string)
    requires CityStrictAt(s, P)
    requires GroupStart(s, P) == g0 && CitySlash(s, P) == q
    requires s[g0..q] == g && s[q + 1..q + 3] == uf
    ensures StrictCity(s, P) == (Trim(g), uf)
  {
  }

  /** The strict pattern's match at `P`, in terms of the text around it. */
  lemma CityStrictFound(s: string, P: nat, x: string, uf: string)
    requires forall p :: 0 <= p < P ==> !LiteralAt(s, CityLabel, p)
    requires x != [] && All(x, IsCityChar)
    requires |uf| == 2 && IsAsciiLetter(uf[0]) && IsAsciiLetter(uf[1])
    requires P + |CityLabel| + |x| + 3 <= |s|
    requires s[P..P + |CityLabel|] == CityLabel
    requires s[P + |CityLabel|..P + |CityLabel| + |x|] == x
    requires s[P + |CityLabel| + |x|] == '/'
    requires s[P + |CityLabel| + |x| + 1..P + |CityLabel| + |x| + 3] == uf
    ensures ExtractCity(s) == (Trim(CityGroup(x)), uf)
  {
    CityStrictMatches(s, P, x, uf);
    StrictCityIsUsed(s, P);
  }

  /** A city followed by "/" and a two-letter state, at the first label,
      gives exactly that city (trimmed) and state; a city of whitespace alone
      leaves its last character as the group. */
  lemma CityWithState(pre: string, x: string, uf: string, post: string)
    requires forall p :: 0 <= p < |pre| ==> !LiteralAt(pre + CityLabel, CityLabel, p)
    requires x != [] && All(x, IsCityChar)
    requires |uf| == 2 && IsAsciiLetter(uf[0]) && IsAsciiLetter(uf[1])
    ensures ExtractCity(pre + CityLabel + x + "/" + uf + post) == (Trim(CityGroup(x)), uf)
  {
    var rest := x + "/" + uf + post;
    var s := pre + CityLabel + rest;
    assert s == pre + CityLabel + x + "/" + uf + post;
    var P := |pre|;
    var a := P + |CityLabel|;
    var e := a + |x|;
    NoLabelBefore(pre, CityLabel, rest, s);
    assert s[P..a] == CityLabel;
    assert s[a..e] == x;
    assert s[e] == '/';
    assert s[e + 1..e + 3] == uf;
    CityStrictFound(s, P, x, uf);
  }

  /** parse_description of a raw description whose cleaned text carries
      "Cidade/UF: X/UF" at its first label. */
  lemma DescribedCityAndState(toText: string -> string, raw: string, pre: string, x: string, uf: string, post: string)
    requires !PhpEmpty(raw)
    requires CleanText.CleanHtml(toText, raw) == pre + CityLabel + x + "/" + uf + post
    requires forall p :: 0 <= p < |pre| ==> !LiteralAt(pre + CityLabel, CityLabel, p)
    requires x != [] && All(x, IsCityChar)
    requires |uf| == 2 && IsAsciiLetter(uf[0]) && IsAsciiLetter(uf[1])
    ensures ParseDescription(toText, raw).cidade == Trim(CityGroup(x))
    ensures ParseDescription(toText, raw).estado == uf
  {
    CityWithState(pre, x, uf, post);
  }

  /** No label starts where the text has a line break inside the label's
      span, or no '/' in the label's slash position. */
  lemma NotCityLabel(s: string, p: nat, k: nat)
    requires p <= k < p + |CityLabel| <= |s|
    requires s[k] == '\n' || (k == p + 6 && s[k] != '/')
    ensures !LiteralAt(s, CityLabel, p)
  {
    var i := k - p;
    assert Lower(s[p..p + |CityLabel|])[i] == LowerChar(s[k]);
    assert Lower(CityLabel)[i] == LowerChar(CityLabel[i]);
    assert CityLabel[i] != '\n';
  }

  /** When the strict pattern matches nowhere, the first label's line is used. */
  lemma LooseCityIsUsed(s: string, P: nat)
    requires forall p :: 0 <= p <= |s| ==> !CityStrictAt(s, p)
    requires P <= |s| && LiteralAt(s, CityLabel, P)
    requires forall p :: 0 <= p < P ==> !LiteralAt(s, CityLabel, p)
    ensures ExtractCity(s) == LooseCity(s, P)
  {
    assert FirstWhere(0, |s|, StrictCityTest(s)) == None;
    FirstWhereIs(0, |s|, CityLabelTest(s), P);
  }

  /** Equal texts trim alike. */
  lemma SameTrim(t: string, u: string)
    requires t == u
    ensures Trim(t) == Trim(u)
  {
  }

  /** With no label after the first one, and no '/' ending the first one's
      city group, the strict pattern matches nowhere. */
  lemma NoStrictCity(s: string, P: nat, b: nat, e: nat)
    requires forall p :: 0 <= p < P ==> !LiteralAt(s, CityLabel, p)
    requires forall p :: P < p <= |s| ==> !LiteralAt(s, CityLabel, p)
    requires P + |CityLabel| <= b <= e <= |s|
    requires forall k :: P + |CityLabel| <= k < b ==> IsPcreSpace(s[k])
    requires b == |s| || !IsPcreSpace(s[b])
    requires forall k :: b <= k < e ==> IsCityChar(s[k])
    requires e == |s| || s[e] == '\n'
    ensures forall p :: 0 <= p <= |s| ==> !CityStrictAt(s, p)
  {
    forall p | 0 <= p <= |s|
      ensures !CityStrictAt(s, p)
    {
      if p == P && LiteralAt(s, CityLabel, p) {
        CityGroupBounds(s, P, b, e);
      }
    }
  }

  /** The loose reading of a label followed by a city without a state: the
      city is the rest of the line from the first non-blank at `b` to the
      line end `e`. */
  lemma LooseCityFound(s: string, P: nat, b: nat, e: nat, v: string)
    requires forall p :: 0 <= p < P ==> !LiteralAt(s, CityLabel, p)
    requires forall p :: P < p <= |s| ==> !LiteralAt(s, CityLabel, p)
    requires P + |CityLabel| <= b < e <= |s|
    requires s[P..P + |CityLabel|] == CityLabel
    requires forall k :: P + |CityLabel| <= k < b ==> IsPcreSpace(s[k])
    requires !IsPcreSpace(s[b])
    requires forall k :: b <= k < e ==> IsCityChar(s[k])
    requires e == |s| || s[e] == '\n'
    requires s[b..e] == v
    ensures ExtractCity(s) == (Trim(v), [])
  {
    assert LiteralAt(s, CityLabel, P);
    NoStrictCity(s, P, b, e);
    LooseCityIsUsed(s, P);
    RestOfLineSpan(s, P + |CityLabel|, b, e);
    NotInSlice(s, b, e, '/');
    TrimByAbsent(s[b..e], IsPhpTrimSpace, '/');
  }

  /** After the label at |pre|, a one-line city without a slash, then a new
      line holding no label: no other label follows the first. */
  lemma NoLaterLabel(pre: string, x: string, post: string)
    requires All(x, IsCityChar)
    requires post == [] || post[0] == '\n'
    requires forall p :: 0 <= p < |post| ==> !LiteralAt(post, CityLabel, p)
    ensures forall p :: |pre| < p <= |pre + CityLabel + x + post| ==> !LiteralAt(pre + CityLabel + x + post, CityLabel, p)
  {
    var s := pre + CityLabel + x + post;
    var P := |pre|;
    var a := P + |CityLabel|;
    var e := a + |x|;
    forall p | P < p <= |s| && p + |CityLabel| <= |s|
      ensures !LiteralAt(s, CityLabel, p)
    {
      if p + 6 < a {
        assert s[p + 6] == CityLabel[p + 6 - P];
        NotCityLabel(s, p, p + 6);
      } else if p + 6 < e {
        assert s[p + 6] == x[p + 6 - a];
        assert IsCityChar(x[p + 6 - a]);
        NotCityLabel(s, p, p + 6);
      } else if p < e {
        assert s[e] == post[0];
        NotCityLabel(s, p, e);
      } else {
        assert s[p..p + |CityLabel|] == post[p - e..p - e + |CityLabel|];
        assert !LiteralAt(post, CityLabel, p - e);
      }
    }
  }

  /** The label at `P` is the only one in `s`, and its line, ending at `e`,
      holds no slash and reads `v` after its leading whitespace. */
  predicate LooseCityLine(s: string, P: nat, a: nat, e: nat, v: string) {
    && a == P + |CityLabel| <= e <= |s| && s[P..a] == CityLabel
    && (forall p :: 0 <= p < P ==> !LiteralAt(s, CityLabel, p))
    && (forall p :: P < p <= |s| ==> !LiteralAt(s, CityLabel, p))
    && (forall k :: a <= k < e ==> IsCityChar(s[k]))
    && (e == |s| || s[e] == '\n')
    && SkipWhile(s, a, IsPcreSpace) < e && s[SkipWhile(s, a, IsPcreSpace)..e] == v
  }

  /** A city text `x` at `a` after the only label `P`, ending its line. */
  lemma CityLineOfText(s: string, P: nat, a: nat, x: string, j: nat)
    requires a == P + |CityLabel| <= |s| && s[P..a] == CityLabel
    requires forall p :: 0 <= p < P ==> !LiteralAt(s, CityLabel, p)
    requires forall p :: P < p <= |s| ==> !LiteralAt(s, CityLabel, p)
    requires All(x, IsCityChar) && j == SkipWhile(x, 0, IsPcreSpace) < |x|
    requires a + |x| <= |s| && s[a..a + |x|] == x
    requires a + |x| == |s| || s[a + |x|] == '\n'
    ensures LooseCityLine(s, P, a, a + |x|, x[j..])
  {
    CitySpan(s, a, x, j);
  }

  /** The loose reading at the only label `P`, whose line ends at `e` and
      holds no slash: the city is that line after its leading whitespace. */
  lemma LooseCityAfterSpaces(s: string, P: nat, a: nat, e: nat, v: string)
    requires LooseCityLine(s, P, a, e, v)
    ensures ExtractCity(s) == (Trim(v), [])
  {
    var b := SkipWhile(s, a, IsPcreSpace);
    LooseCityFound(s, P, b, e, v);
  }

  /** A city text `x` embedded at `a`, in terms of positions of `s`. */
  lemma CitySpan(s: string, a: nat, x: string, j: nat)
    requires All(x, IsCityChar) && j == SkipWhile(x, 0, IsPcreSpace) < |x|
    requires a + |x| <= |s| && s[a..a + |x|] == x
    ensures forall k :: a <= k < a + |x| ==> IsCityChar(s[k])
    ensures SkipWhile(s, a, IsPcreSpace) == a + j
    ensures s[a + j..a + |x|] == x[j..]
  {
    SpacesThenCity(s, a, x, j);
    SkipWhileUnique(s, a, a + j, IsPcreSpace);
    forall k | a <= k < a + |x|
      ensures IsCityChar(s[k])
    {
      assert s[k] == x[k - a];
    }
  }

  /** A city text `x` embedded at `a`: its leading whitespace, then from its
      first non-blank `j` a run of the group's class. */
  lemma SpacesThenCity(s: string, a: nat, x: string, j: nat)
    requires All(x, IsCityChar) && j == SkipWhile(x, 0, IsPcreSpace) < |x|
    requires a + |x| <= |s| && s[a..a + |x|] == x
    ensures forall k :: a <= k < a + j ==> IsPcreSpace(s[k])
    ensures !IsPcreSpace(s[a + j])
    ensures forall k :: a + j <= k < a + |x| ==> IsCityChar(s[k])
    ensures s[a + j..a + |x|] == x[j..]
  {
    EmbeddedSuffix(s, a, x, j);
    EmbeddedChars(s, a, x);
  }

  /** With no "/UF" after the first label's city and no further label, the
      city is the rest of that line after its leading whitespace, trimmed,
      and the state stays empty. */
  lemma CityWithoutState(pre: string, x: string, post: string)
    requires forall p :: 0 <= p < |pre| ==> !LiteralAt(pre + CityLabel, CityLabel, p)
    requires All(x, IsCityChar) && !All(x, IsPcreSpace)
    requires post == [] || post[0] == '\n'
    requires forall p :: 0 <= p < |post| ==> !LiteralAt(post, CityLabel, p)
    ensures ExtractCity(pre + CityLabel + x + post) == (Trim(TrimStart(x, IsPcreSpace)), [])
  {
    var s := pre + CityLabel + x + post;
    var P := |pre|;
    var a := P + |CityLabel|;
    var e := a + |x|;
    assert forall p :: 0 <= p < P ==> !LiteralAt(s, CityLabel, p) by {
      NoLabelBefore(pre, CityLabel, x + post, s);
    }
    assert forall p :: P < p <= |s| ==> !LiteralAt(s, CityLabel, p) by {
      NoLaterLabel(pre, x, post);
    }
    assert s[P..a] == CityLabel;
    assert s[a..e] == x;
    assert e < |s| ==> s[e] == post[0];
    var j := SkipWhile(x, 0, IsPcreSpace);
    CityLineOfText(s, P, a, x, j);
    LooseCityAfterSpaces(s, P, a, e, x[j..]);
    assert x[j..] == TrimStart(x, IsPcreSpace);
  }

  /** A lone blank before the slash is handed back to the city group, and
      when trim keeps it (a form feed), it is the city. */
  lemma LoneBlankCity(c: char, uf: string)
    requires IsPcreSpace(c) && c != '\n' && !IsPhpTrimSpace(c)
    requires |uf| == 2 && IsAsciiLetter(uf[0]) && IsAsciiLetter(uf[1])
    ensures ExtractCity(CityLabel + [c] + "/" + uf) == ([c], uf)
  {
    var x := [c];
    var e: string := [];
    assert e + CityLabel + x + "/" + uf + e == CityLabel + x + "/" + uf;
    CityWithState(e, x, uf, e);
    LoneBlankGroup(c);
  }

  /** The group of a lone blank is that blank, and trim keeps a form feed. */
  lemma LoneBlankGroup(c: char)
    requires IsPcreSpace(c) && !IsPhpTrimSpace(c)
    ensures Trim(CityGroup([c])) == [c]
  {
    var x := [c];
    assert All(x, IsPcreSpace) && x[|x| - 1..] == x;
    TrimFixedPoint(x, IsPhpTrimSpace);
  }

  /** "Cidade/UF:" then a form feed and "/SP": the form feed is the city. */
  lemma FormFeedCityKept(x: string, uf: string)
    requires x == "\U{0C}" && uf == "SP"
    ensures ExtractCity(CityLabel + x + "/" + uf) == (x, uf)
  {
    assert x == [x[0]];
    LoneBlankCity(x[0], uf);
  }

  /** Text without the letter c holds no label. */
  lemma NoCityLabelWithoutC(t: string)
    requires forall k :: 0 <= k < |t| ==> LowerChar(t[k]) != 'c'
    ensures forall p :: 0 <= p < |t| ==> !LiteralAt(t, CityLabel, p)
  {
    forall p | 0 <= p < |t| && p + |CityLabel| <= |t|
      ensures !LiteralAt(t, CityLabel, p)
    {
      assert Lower(t[p..p + |CityLabel|])[0] == LowerChar(t[p]);
    }
  }

  /** A cleaned line "Cidade/UF: Salvador" followed by a link with slashes. */
  lemma CityLineBeforeLink(x: string, post: string)
    requires x == " Salvador" && post == "\nhttp://rh/vagas"
    ensures ExtractCity(CityLabel + x + post) == ("Salvador", [])
  {
    LinkLineHasNoLabel(post);
    OneBlankThenCity(x, "Salvador");
    var e: string := [];
    EmptyBefore(e, CityLabel);
    CityWithoutState(e, x, post);
  }

  /** Nothing in front of a text leaves it as it is. */
  lemma EmptyBefore(e: string, t: string)
    requires e == []
    ensures e + t == t
  {
  }

  /** The link line starts a new line and holds no label. */
  lemma LinkLineHasNoLabel(post: string)
    requires post == "\nhttp://rh/vagas"
    ensures post[0] == '\n'
    ensures forall p :: 0 <= p < |post| ==> !LiteralAt(post, CityLabel, p)
  {
    assert forall k :: 0 <= k < |post| ==> LowerChar(post[k]) != 'c';
    NoCityLabelWithoutC(post);
  }

  /** One space, then a city that trim leaves alone. */
  lemma OneBlankThenCity(x: string, v: string)
    requires x == " " + v && v != [] && All(v, IsCityChar)
    requires !IsPcreSpace(v[0]) && !IsPhpTrimSpace(v[0]) && !IsPhpTrimSpace(v[|v| - 1])
    ensures All(x, IsCityChar) && !All(x, IsPcreSpace)
    ensures Trim(TrimStart(x, IsPcreSpace)) == v
  {
    assert x[1] == v[0];
    assert SkipWhile(x, 0, IsPcreSpace) == 1;
    assert TrimStart(x, IsPcreSpace) == v;
    TrimFixedPoint(v, IsPhpTrimSpace);
  }

  /** Splitting a "city/UF" location gives its two parts back. */
  lemma SplitLocationJoin(city: string, uf: string)
    requires city != [] && '\n' !in city && Trim(city) == city
    requires |uf| == 2 && IsAsciiLetter(uf[0]) && IsAsciiLetter(uf[1])
    ensures SplitLocation(city + "/" + uf) == (city, uf)
  {
    var loc := city + "/" + uf;
    assert loc[..|loc| - 3] == city;
    assert loc[|loc| - 2..] == uf;
  }

  /** Text appended after a first label leaves the positions before it without one. */
  lemma NoLabelBefore(pre: string, lit: string, rest: string, s: string)
    requires forall p :: 0 <= p < |pre| ==> !LiteralAt(pre + lit, lit, p)
    requires s == pre + lit + rest
    ensures forall p :: 0 <= p < |pre| ==> !LiteralAt(s, lit, p)
  {
    forall p | 0 <= p < |pre|
      ensures !LiteralAt(s, lit, p)
    {
      LiteralAtInPrefix(pre, lit, rest, p);
    }
  }

  /** The branch after the first label, read from its line. */
  lemma BranchAt(s: string, P: nat, c: nat, v: string)
    requires forall p :: 0 <= p < P ==> !LiteralAt(s, BranchLabel, p)
    requires P <= |s| && BranchLabelEnd(s, P) == Some(c)
    requires c + |v| <= |s| && s[c..c + |v|] == v
    requires '\n' !in v && !All(v, IsPcreSpace)
    requires c + |v| == |s| || s[c + |v|] == '\n'
    ensures ExtractBranch(s) == Trim(TrimStart(v, IsPcreSpace))
  {
    FirstWhereIs(0, |s|, BranchTest(s), P);
    RestOfLineAt(s, c, v);
  }

  /** "Ramo de atividade:" followed by a value gives that value. */
  lemma BranchFound(pre: string, v: string, post: string)
    requires forall p :: 0 <= p < |pre| ==> !LiteralAt(pre + BranchLabel, BranchLabel, p)
    requires '\n' !in v && !All(v, IsPcreSpace)
    requires post == [] || post[0] == '\n'
    ensures ExtractBranch(pre + BranchLabel + ":" + v + post) == Trim(TrimStart(v, IsPcreSpace))
  {
    var rest := ":" + v + post;
    var s := pre + BranchLabel + rest;
    assert s == pre + BranchLabel + ":" + v + post;
    var P := |pre|;
    var e := P + |BranchLabel|;
    assert s[P..e] == BranchLabel;
    assert s[e] == ':';
    NoLabelBefore(pre, BranchLabel, rest, s);
    assert s[e + 1..e + 1 + |v|] == v;
    BranchAt(s, P, e + 1, v);
  }

  /** Where the company form of the branch label ends: whitespace on
      [P + |BranchLabel|, w), then "da empresa" and the colon. */
  lemma CompanyLabelEnd(s: string, P: nat, w: nat)
    requires P + |BranchLabel| <= w && w + |CompanySuffix| < |s|
    requires s[P..P + |BranchLabel|] == BranchLabel
    requires forall k :: P + |BranchLabel| <= k < w ==> IsPcreSpace(s[k])
    requires s[w..w + |CompanySuffix|] == CompanySuffix
    requires s[w + |CompanySuffix|] == ':'
    ensures BranchLabelEnd(s, P) == Some(w + |CompanySuffix| + 1)
  {
    assert s[w] == s[w..w + |CompanySuffix|][0] == 'd';
    SkipWhileUnique(s, P + |BranchLabel|, w, IsPcreSpace);
  }

  /** The company form of the label, with its whitespace, "da empresa" and colon. */
  lemma CompanyLabelAt(pre: string, sp: string, rest: string, s: string)
    requires All(sp, IsPcreSpace)
    requires s == pre + BranchLabel + sp + CompanySuffix + ":" + rest
    ensures BranchLabelEnd(s, |pre|) == Some(|pre| + |BranchLabel| + |sp| + |CompanySuffix| + 1)
  {
    var P := |pre|;
    var e := P + |BranchLabel|;
    var w := e + |sp|;
    var c := w + |CompanySuffix|;
    assert s[P..e] == BranchLabel;
    forall k | e <= k < w
      ensures IsPcreSpace(s[k])
    {
      assert s[k] == sp[k - e];
    }
    assert s[w..c] == CompanySuffix;
    assert s[c] == ':';
    CompanyLabelEnd(s, P, w);
  }

  /** "Ramo de atividade da empresa:" (any whitespace before "da") gives its value too. */
  lemma BranchOfCompanyFound(pre: string, sp: string, v: string, post: string)
    requires forall p :: 0 <= p < |pre| ==> !LiteralAt(pre + BranchLabel, BranchLabel, p)
    requires All(sp, IsPcreSpace)
    requires '\n' !in v && !All(v, IsPcreSpace)
    requires post == [] || post[0] == '\n'
    ensures ExtractBranch(pre + BranchLabel + sp + CompanySuffix + ":" + v + post) == Trim(TrimStart(v, IsPcreSpace))
  {
    var head := pre + BranchLabel + sp + CompanySuffix + ":";
    var s := head + v + post;
    NoLabelBefore(pre, BranchLabel, sp + CompanySuffix + ":" + v + post, s);
    CompanyLabelAt(pre, sp, v + post, s);
    MiddleSlice(head, v, post);
    assert |head| == |pre| + |BranchLabel| + |sp| + |CompanySuffix| + 1;
    assert |head| + |v| == |s| || s[|head| + |v|] == '\n';
    BranchAt(s, |pre|, |head|, v);
  }

  /** Where a label starts well inside a prefix of the text, only the prefix matters. */
  lemma CountLabelEndPrefix(t: string, rest: string, p: nat)
    requires p + 3 + |CountTail| <= |t|
    ensures CountLabelEnd(t + rest, p) == CountLabelEnd(t, p)
  {
    var s := t + rest;
    assert s[p + 2..p + 2 + |CountTail|] == t[p + 2..p + 2 + |CountTail|];
    assert s[p + 3..p + 3 + |CountTail|] == t[p + 3..p + 3 + |CountTail|];
  }

  /** Text appended after a label leaves the positions before it without one. */
  lemma NoCountLabelBefore(pre: string, spelling: string, rest: string)
    requires spelling == CountLabelPlain || spelling == CountLabelAccented
    requires forall p :: 0 <= p < |pre| ==> CountLabelEnd(pre + spelling, p).None?
    ensures forall p :: 0 <= p < |pre| ==> CountLabelEnd(pre + spelling + rest, p).None?
  {
    forall p | 0 <= p < |pre|
      ensures CountLabelEnd(pre + spelling + rest, p).None?
    {
      CountLabelEndPrefix(pre + spelling, rest, p);
    }
  }

  /** Both spellings of the label are recognised by the intended reading. */
  lemma CountLabelRecognised(s: string, P: nat, spelling: string)
    requires spelling == CountLabelPlain || spelling == CountLabelAccented
    requires P + |spelling| <= |s| && s[P..P + |spelling|] == spelling
    ensures CountLabelEnd(s, P) == Some(P + |spelling|)
  {
    assert s[P] == spelling[0] && s[P + 1] == spelling[1];
    if spelling == CountLabelPlain {
      EmbeddedSlice(s, P, spelling, 2, |spelling|);
      assert spelling[2..] == CountTail;
    } else {
      assert s[P + 2] == spelling[2];
      EmbeddedSlice(s, P, spelling, 3, |spelling|);
      assert spelling[3..] == CountTail;
    }
  }

  /** Whitespace on [e, b) then digits on [b, d): `\s*(\d+)` matches at `e`
      and reads the digits. */
  lemma DigitsAt(s: string, e: nat, b: nat, d: nat)
    requires e <= b < d <= |s|
    requires forall k :: e <= k < b ==> IsPcreSpace(s[k])
    requires forall k :: b <= k < d ==> IsDigit(s[k])
    requires d == |s| || !IsDigit(s[d])
    ensures DigitsFollow(s, e) && DigitsAfter(s, e) == DigitsValue(s[b..d])
  {
    SkipWhileUnique(s, e, b, IsPcreSpace);
    SkipWhileUnique(s, b, d, IsDigit);
  }

  /** The count is read after the first label at which the pattern matches. */
  lemma CountIsFirst(s: string, P: nat)
    requires P <= |s| && CountAt(s, CountLabelEnd, P)
    requires forall p :: 0 <= p < P ==> CountLabelEnd(s, p).None?
    ensures ExtractCount(s) == DigitsAfter(s, CountLabelEnd(s, P).value)
  {
    FirstWhereIs(0, |s|, CountTest(s, CountLabelEnd), P);
  }

  /** A label at `P`, the first one, then whitespace on [P + |spelling|, b)
      and digits on [b, d): the count is the value of those digits. */
  lemma CountAtIndex(s: string, P: nat, spelling: string, b: nat, d: nat)
    requires spelling == CountLabelPlain || spelling == CountLabelAccented
    requires P + |spelling| <= b < d <= |s| && s[P..P + |spelling|] == spelling
    requires forall p :: 0 <= p < P ==> CountLabelEnd(s, p).None?
    requires forall k :: P + |spelling| <= k < b ==> IsPcreSpace(s[k])
    requires forall k :: b <= k < d ==> IsDigit(s[k])
    requires d == |s| || !IsDigit(s[d])
    ensures ExtractCount(s) == DigitsValue(s[b..d])
  {
    CountLabelRecognised(s, P, spelling);
    DigitsAt(s, P + |spelling|, b, d);
    CountIsFirst(s, P);
  }

  /** "Número de vagas:" (with or without the accent) followed by a number
      gives that number, read as intended. */
  lemma CountFound(pre: string, spelling: string, sp: string, n: nat, post: string)
    requires spelling == CountLabelPlain || spelling == CountLabelAccented
    requires forall p :: 0 <= p < |pre| ==> CountLabelEnd(pre + spelling, p).None?
    requires All(sp, IsPcreSpace)
    requires post == [] || !IsDigit(post[0])
    ensures ExtractCount(pre + spelling + sp + NatToString(n) + post) == n
  {
    var ds := NatToString(n);
    var rest := sp + ds + post;
    var s := pre + spelling + rest;
    assert s == pre + spelling + sp + ds + post;
    var P := |pre|;
    var e := P + |spelling|;
    var b := e + |sp|;
    var d := b + |ds|;
    NoCountLabelBefore(pre, spelling, rest);
    assert s[P..e] == spelling;
    forall k | e <= k < b
      ensures IsPcreSpace(s[k])
    {
      assert s[k] == sp[k - e];
    }
    forall k | b <= k < d
      ensures IsDigit(s[k])
    {
      assert s[k] == ds[k - b];
    }
    if d < |s| {
      assert s[d] == post[0];
    }
    CountAtIndex(s, P, spelling, b, d);
    assert s[b..d] == ds;
    NatToStringRoundTrip(n);
  }

  /** The pattern as written, like the intended one, sees a label starting
      well inside a prefix only through that prefix. */
  lemma CountLabelEndAsWrittenPrefix(t: string, rest: string, p: nat)
    requires p + 2 + |CountTail| <= |t|
    ensures CountLabelEndAsWritten(t + rest, p) == CountLabelEndAsWritten(t, p)
  {
    var s := t + rest;
    assert s[p + 2..p + 2 + |CountTail|] == t[p + 2..p + 2 + |CountTail|];
  }

  lemma NoCountLabelAsWrittenBefore(pre: string, rest: string)
    requires forall p :: 0 <= p < |pre| ==> CountLabelEndAsWritten(pre + CountLabelPlain, p).None?
    ensures forall p :: 0 <= p < |pre| ==> CountLabelEndAsWritten(pre + CountLabelPlain + rest, p).None?
  {
    forall p | 0 <= p < |pre|
      ensures CountLabelEndAsWritten(pre + CountLabelPlain + rest, p).None?
    {
      CountLabelEndAsWrittenPrefix(pre + CountLabelPlain, rest, p);
    }
  }

  /** The pattern as written recognises the label spelled without the accent. */
  lemma PlainLabelAsWritten(s: string, P: nat)
    requires P + |CountLabelPlain| <= |s| && s[P..P + |CountLabelPlain|] == CountLabelPlain
    ensures CountLabelEndAsWritten(s, P) == Some(P + |CountLabelPlain|)
  {
    assert s[P] == CountLabelPlain[0] && s[P + 1] == CountLabelPlain[1];
    EmbeddedSlice(s, P, CountLabelPlain, 2, |CountLabelPlain|);
    assert CountLabelPlain[2..] == CountTail;
  }

  /** CountAtIndex for the pattern as written and the plain label. */
  lemma CountAtIndexAsWritten(s: string, P: nat, b: nat, d: nat)
    requires P + |CountLabelPlain| <= b < d <= |s| && s[P..P + |CountLabelPlain|] == CountLabelPlain
    requires forall p :: 0 <= p < P ==> CountLabelEndAsWritten(s, p).None?
    requires forall k :: P + |CountLabelPlain| <= k < b ==> IsPcreSpace(s[k])
    requires forall k :: b <= k < d ==> IsDigit(s[k])
    requires d == |s| || !IsDigit(s[d])
    ensures ExtractCountAsWritten(s) == DigitsValue(s[b..d])
  {
    PlainLabelAsWritten(s, P);
    DigitsAt(s, P + |CountLabelPlain|, b, d);
    FirstWhereIs(0, |s|, CountTest(s, CountLabelEndAsWritten), P);
  }

  /** "Numero de vagas:" followed by a number gives that number with the
      pattern as written, which reads the plain spelling as intended. */
  lemma CountFoundAsWritten(pre: string, sp: string, n: nat, post: string)
    requires forall p :: 0 <= p < |pre| ==> CountLabelEndAsWritten(pre + CountLabelPlain, p).None?
    requires All(sp, IsPcreSpace)
    requires post == [] || !IsDigit(post[0])
    ensures ExtractCountAsWritten(pre + CountLabelPlain + sp + NatToString(n) + post) == n
  {
    var ds := NatToString(n);
    var rest := sp + ds + post;
    var s := pre + CountLabelPlain + rest;
    assert s == pre + CountLabelPlain + sp + ds + post;
    var P := |pre|;
    var e := P + |CountLabelPlain|;
    var b := e + |sp|;
    var d := b + |ds|;
    NoCountLabelAsWrittenBefore(pre, rest);
    assert s[P..e] == CountLabelPlain;
    forall k | e <= k < b
      ensures IsPcreSpace(s[k])
    {
      assert s[k] == sp[k - e];
    }
    forall k | b <= k < d
      ensures IsDigit(s[k])
    {
      assert s[k] == ds[k - b];
    }
    if d < |s| {
      assert s[d] == post[0];
    }
    CountAtIndexAsWritten(s, P, b, d);
    assert s[b..d] == ds;
    NatToStringRoundTrip(n);
  }

  /** Counterexample to the count pattern as written: the UTF-8 label
      "Número de vagas: 3" is never recognised, while the intended reading
      gives 3. */
  lemma AccentedCountMissed()
    ensures ExtractCountAsWritten(CountLabelAccented + " 3") == 0
    ensures ExtractCount(CountLabelAccented + " 3") == 3
  {
    AccentedLabelUnread();
    AccentedCountRead();
  }

  /** The intended pattern reads the count after the accented label. */
  lemma AccentedCountRead()
    ensures ExtractCount(CountLabelAccented + " 3") == 3
  {
    var e: string := [];
    var t := CountLabelAccented;
    assert NatToString(3) == "3";
    assert e + t + " " + NatToString(3) + e == t + " 3" by {
      CatEmpty(t + " " + "3");
    }
    CountFound(e, t, " ", 3, e);
  }

  lemma CatEmpty(x: string)
    ensures [] + x == x && x + [] == x
  {
  }

  /** The pattern as written finds no label anywhere in "Número de vagas: 3". */
  lemma AccentedLabelUnread()
    ensures forall p :: 0 <= p <= |CountLabelAccented + " 3"| ==> CountLabelEndAsWritten(CountLabelAccented + " 3", p).None?
  {
    var s := CountLabelAccented + " 3";
    assert s == ['N', '\U{C3}', '\U{BA}', 'm', 'e', 'r', 'o', ' ', 'd', 'e', ' ', 'v', 'a', 'g', 'a', 's', ':', ' ', '3'];
    forall p | 0 <= p <= |s|
      ensures CountLabelEndAsWritten(s, p).None?
    {
      if p == 0 {
        assert Lower(s[2..2 + |CountTail|])[0] != Lower(CountTail)[0];
      } else if p < |s| {
        assert LowerChar(s[p]) != 'n';
      }
    }
  }

  lemma CountLabelEndsAgree(s: string, p: nat)
    requires '\U{C3}' !in s && '\U{BA}' !in s
    ensures CountLabelEnd(s, p) == CountLabelEndAsWritten(s, p)
  {
    if p + 1 < |s| {
      assert s[p + 1] != '\U{C3}' && s[p + 1] != '\U{BA}';
    }
  }

  /** On text without the bytes 0xC3 and 0xBA the intended reading and the
      pattern as written agree. */
  lemma CountReadingsAgree(s: string)
    requires '\U{C3}' !in s && '\U{BA}' !in s
    ensures ExtractCount(s) == ExtractCountAsWritten(s)
  {
    forall p | 0 <= p <= |s|
      ensures CountAt(s, CountLabelEnd, p) == CountAt(s, CountLabelEndAsWritten, p)
    {
      CountLabelEndsAgree(s, p);
    }
    FirstWhereSame(0, |s|, CountTest(s, CountLabelEnd), CountTest(s, CountLabelEndAsWritten));
    var r := FirstWhere(0, |s|, CountTest(s, CountLabelEnd));
    if r.Some? {
      CountLabelEndsAgree(s, r.value);
    }
  }
}
