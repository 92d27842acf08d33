/**
  The duration normaliser of the parameter viewer (`convert_to_days`).

  A free-form duration string is trimmed and lower-cased; the two special
  phrases `na` and `coterminous with loan tenure` give 0 and 3650 days;
  otherwise the string is matched, from its first character on, against
  `(\d+)\s*(days|months|years)` and gives n, 30n or 365n days; anything else
  gives 0. The regular expression is modelled as an explicit scanner whose
  result is proved to be the unique match of the pattern.

  Characters follow ASCII: whitespace is what Python's `str.isspace` accepts
  among the ASCII characters, digits are `0`..`9`, and lower-casing maps only
  `A`..`Z`.
*/
module Duration {
  import opened Wrappers

  // ---------------------------------------------------------------------
  // Characters
  // ---------------------------------------------------------------------

  /** ASCII whitespace as understood by `str.strip()` and by `\s`. */
  predicate IsSpace(c: char) {
    c == ' ' || c == '\t' || c == '\n' || c == '\r' || c == '\U{0B}' || c == '\U{0C}'
    || ('\U{1C}' <= c <= '\U{1F}')
  }

  predicate IsDigit(c: char) {
    '0' <= c <= '9'
  }

  predicate IsUpper(c: char) {
    'A' <= c <= 'Z'
  }

  /** The value of one decimal digit. */
  function DigitValue(c: char): (d: nat)
    requires IsDigit(c)
    ensures d < 10
  {
    c as int - '0' as int
  }

  /** ASCII lower-casing of one character. */
  function LowerChar(c: char): (r: char)
    ensures !IsUpper(r)
    ensures r == c || IsUpper(c)
    ensures IsSpace(r) <==> IsSpace(c)
    ensures IsDigit(r) <==> IsDigit(c)
    ensures IsUpper(c) ==> 'a' <= r <= 'z' && r as int - 'a' as int == c as int - 'A' as int
  {
    if IsUpper(c) then (c as int - 'A' as int + 'a' as int) as char else c
  }

  predicate AllSpace(s: string) {
    forall k | 0 <= k < |s| :: IsSpace(s[k])
  }

  predicate AllDigits(s: string) {
    forall k | 0 <= k < |s| :: IsDigit(s[k])
  }

  /** Neither end of `s` is whitespace: what `strip()` leaves behind. */
  predicate Trimmed(s: string) {
    s == [] || (!IsSpace(s[0]) && !IsSpace(s[|s| - 1]))
  }

  /** `s` and `t` differ at most in the case of ASCII letters. */
  predicate SameIgnoringCase(s: string, t: string) {
    |s| == |t| && forall k | 0 <= k < |s| :: LowerChar(s[k]) == LowerChar(t[k])
  }

  predicate StartsWith(s: string, prefix: string) {
    |prefix| <= |s| && s[..|prefix|] == prefix
  }

  // ---------------------------------------------------------------------
  // str(value).strip().lower()
  // ---------------------------------------------------------------------

  /** End of the longest run of characters in `inClass` starting at `i`. */
  function RunEnd(t: string, i: nat, inClass: char -> bool): (k: nat)
    requires i <= |t|
    ensures i <= k <= |t|
    ensures forall p | i <= p < k :: inClass(t[p])
    ensures k == |t| || !inClass(t[k])
    decreases |t| - i
  {
    if i < |t| && inClass(t[i]) then RunEnd(t, i + 1, inClass) else i
  }

  /** Start of the longest run of characters in `inClass` that ends at `e`,
      not going below `lo`. */
  function RunStart(t: string, lo: nat, e: nat, inClass: char -> bool): (b: nat)
    requires lo <= e <= |t|
    ensures lo <= b <= e
    ensures forall p | b <= p < e :: inClass(t[p])
    ensures b == lo || !inClass(t[b - 1])
  {
    if lo < e && inClass(t[e - 1]) then RunStart(t, lo, e - 1, inClass) else e
  }

  /** A run is determined by where it starts: its end is unique. */
  lemma RunEndIs(t: string, i: nat, k: nat, inClass: char -> bool)
    requires i <= k <= |t|
    requires forall p | i <= p < k :: inClass(t[p])
    requires k == |t| || !inClass(t[k])
    ensures RunEnd(t, i, inClass) == k
  {
  }

  /** A backward run is determined by where it ends: its start is unique. */
  lemma RunStartIs(t: string, lo: nat, e: nat, b: nat, inClass: char -> bool)
    requires lo <= b <= e <= |t|
    requires forall p | b <= p < e :: inClass(t[p])
    requires b == lo || !inClass(t[b - 1])
    ensures RunStart(t, lo, e, inClass) == b
  {
  }

  /** `strip()`: skips the leading whitespace, then the trailing whitespace
      of what is left. The result has no whitespace at either end, and it
      is empty exactly when the input is all whitespace. */
  function Trim(s: string): (r: string)
    ensures |r| <= |s|
    ensures Trimmed(r)
    ensures r == [] <==> AllSpace(s)
  {
    var a := RunEnd(s, 0, IsSpace);
    var b := RunStart(s, a, |s|, IsSpace);
    s[a..b]
  }

  /** `lower()` restricted to ASCII. */
  function Lower(s: string): (r: string)
    ensures |r| == |s|
    ensures forall k | 0 <= k < |s| :: r[k] == LowerChar(s[k])
  {
    if s == [] then [] else [LowerChar(s[0])] + Lower(s[1..])
  }

  /** The string `convert_to_days` works on after `strip().lower()`:
      it has no whitespace at either end and no upper-case letter. */
  function Normalize(value: string): (v: string)
    ensures |v| <= |value|
    ensures Trimmed(v)
    ensures forall k | 0 <= k < |v| :: !IsUpper(v[k])
  {
    var t := Trim(value);
    LowerKeepsSpacing(t);
    Lower(t)
  }

  // ---------------------------------------------------------------------
  // The pattern (\d+)\s*(days|months|years), anchored at the start
  // ---------------------------------------------------------------------

  datatype Unit = Days | Months | Years

  /** The unit word the alternation `(days|months|years)` matches. */
  function UnitWord(u: Unit): string {
    match u
    case Days => "days"
    case Months => "months"
    case Years => "years"
  }

  /** The unit words are written in lower case. */
  lemma UnitWordLowerCase(u: Unit)
    ensures Lower(UnitWord(u)) == UnitWord(u)
  {
    var w := UnitWord(u);
    assert forall k | 0 <= k < |w| :: 'a' <= w[k] <= 'z' by {
      match u
      case Days =>
      case Months =>
      case Years =>
    }
    LowerOfLowerCase(w);
  }

  /** The table `unit_conversion`: days per unit, at least one. */
  function Factor(u: Unit): (f: nat)
    ensures f >= 1
  {
    match u
    case Days => 1
    case Months => 30
    case Years => 365
  }

  /** The two group boundaries of a successful match: the digits are
      `t[..digitsEnd]`, the unit word starts at `unitStart`. */
  datatype Match = Match(digitsEnd: nat, unitStart: nat, unit: Unit)

  /** Declarative meaning of `re.match(r'(\d+)\s*(days|months|years)', t)`
      succeeding with group 1 = `t[..i]` and group 2 = `UnitWord(u)`. */
  predicate MatchesAt(t: string, i: nat, j: nat, u: Unit) {
    0 < i <= j <= |t| && AllDigits(t[..i]) && AllSpace(t[i..j]) && StartsWith(t[j..], UnitWord(u))
  }

  /** The unit word, if any, that `t` has at position `j`. */
  function UnitAt(t: string, j: nat): (r: Option<Unit>)
    requires j <= |t|
    ensures forall u :: r == Some(u) <==> StartsWith(t[j..], UnitWord(u))
  {
    var rest := t[j..];
    assert forall u :: StartsWith(rest, UnitWord(u)) ==> rest[0] == UnitWord(u)[0] by {
      forall u | StartsWith(rest, UnitWord(u)) ensures rest[0] == UnitWord(u)[0] {
        assert rest[..|UnitWord(u)|][0] == rest[0];
      }
    }
    if StartsWith(rest, "days") then Some(Days)
    else if StartsWith(rest, "months") then Some(Months)
    else if StartsWith(rest, "years") then Some(Years)
    else None
  }

  /** Every match of the pattern has its group boundaries where the
      greedy scan puts them, so the match is unique. */
  lemma MatchIsGreedy(t: string, i: nat, j: nat, u: Unit)
    requires MatchesAt(t, i, j, u)
    ensures i == RunEnd(t, 0, IsDigit)
    ensures j == RunEnd(t, i, IsSpace)
  {
    var w := UnitWord(u);
    assert t[j] == w[0] by { assert t[j..][..|w|] == w; }
    assert !IsDigit(w[0]) && !IsSpace(w[0]);
    forall p | 0 <= p < i ensures IsDigit(t[p]) {
      assert t[p] == t[..i][p];
    }
    forall p | i <= p < j ensures IsSpace(t[p]) {
      assert t[p] == t[i..j][p - i];
    }
    assert !IsDigit(t[i]) by {
      if i < j { assert IsSpace(t[i]); }
    }
  }

  /** The scanner: the longest digit run, the longest whitespace run after
      it, then a unit word. It finds a match exactly when the pattern
      matches, and the match it finds is the only one. */
  function ScanDuration(t: string): (r: Option<Match>)
    ensures forall i, j, u :: MatchesAt(t, i, j, u) <==> r == Some(Match(i, j, u))
    ensures r.Some? ==> MatchesAt(t, r.value.digitsEnd, r.value.unitStart, r.value.unit)
  {
    var i := RunEnd(t, 0, IsDigit);
    var j := RunEnd(t, i, IsSpace);
    var found := if i == 0 then None else
      match UnitAt(t, j)
      case Some(u) => Some(Match(i, j, u))
      case None => None;
    assert forall i', j', u' :: MatchesAt(t, i', j', u') ==> found == Some(Match(i', j', u')) by {
      forall i', j', u' | MatchesAt(t, i', j', u') ensures found == Some(Match(i', j', u')) {
        MatchIsGreedy(t, i', j', u');
      }
    }
    assert found.Some? ==> MatchesAt(t, found.value.digitsEnd, found.value.unitStart, found.value.unit) by {
      if found.Some? {
        assert AllDigits(t[..i]);
        assert AllSpace(t[i..j]);
      }
    }
    found
  }

  // ---------------------------------------------------------------------
  // int(number) and its inverse
  // ---------------------------------------------------------------------

  /** 10 to the power k. */
  function Pow10(k: nat): (p: nat)
    ensures p >= 1
  {
    if k == 0 then 1 else 10 * Pow10(k - 1)
  }

  /** `int(ds)` for a string of decimal digits (leading zeros allowed):
      a number of k digits is below 10^k. */
  function DigitsValue(ds: string): (n: nat)
    requires AllDigits(ds)
    ensures n < Pow10(|ds|)
  {
    if ds == [] then 0 else DigitsValue(ds[..|ds| - 1]) * 10 + DigitValue(ds[|ds| - 1])
  }

  /** Leading zeros do not change the value: `int("007") == int("7")`. */
  lemma {:induction false} DigitsValueLeadingZero(ds: string)
    requires AllDigits(ds)
    ensures AllDigits("0" + ds) && DigitsValue("0" + ds) == DigitsValue(ds)
  {
    if ds != [] {
      var init := ds[..|ds| - 1];
      assert ("0" + ds)[..|ds|] == "0" + init;
      DigitsValueLeadingZero(init);
    }
  }

  /** `str(n)` for a natural number: the canonical decimal form, whose
      value is n again. */
  function DecimalString(n: nat): (s: string)
    ensures s != [] && AllDigits(s)
    ensures DigitsValue(s) == n
  {
    var last := ('0' as int + n % 10) as char;
    if n < 10 then [last]
    else
      var s := DecimalString(n / 10) + [last];
      assert s[..|s| - 1] == DecimalString(n / 10);
      s
  }

  // ---------------------------------------------------------------------
  // convert_to_days
  // ---------------------------------------------------------------------

  const CoterminousPhrase: string := "coterminous with loan tenure"

  /** Ten years of days. */
  const CoterminousDays: nat := 10 * Factor(Years)

  // Solver aid: keeps the non-linear fact out of ConvertToDays' context.
  lemma ProductOfNaturals(a: nat, b: nat)
    ensures a * b >= 0
  {
  }

  /** `convert_to_days`: total, and never negative. */
  function ConvertToDays(value: string): (days: int)
    ensures days >= 0
  {
    var v := Normalize(value);
    if v == "na" then 0
    else if v == CoterminousPhrase then CoterminousDays
    else
      match ScanDuration(v)
      case Some(m) =>
        var number, factor := DigitsValue(v[..m.digitsEnd]), Factor(m.unit);
        ProductOfNaturals(number, factor);
        number * factor
      case None => 0
  }

  // ---------------------------------------------------------------------
  // Facts about strip() and lower()
  // ---------------------------------------------------------------------

  /** `strip()` splits its input into leading whitespace, the result and
      trailing whitespace. */
  lemma TrimSplit(s: string) returns (lead: string, trail: string)
    ensures s == lead + Trim(s) + trail
    ensures AllSpace(lead) && AllSpace(trail)
  {
    var a := RunEnd(s, 0, IsSpace);
    var b := RunStart(s, a, |s|, IsSpace);
    lead, trail := s[..a], s[b..];
    assert s == lead + s[a..b] + trail;
  }

  /** `strip()` is characterised by what it leaves: a string with no
      whitespace at either end, surrounded by whitespace only. */
  lemma TrimPadded(lead: string, w: string, trail: string)
    requires AllSpace(lead) && AllSpace(trail) && Trimmed(w)
    ensures Trim(lead + w + trail) == w
  {
    var s := lead + w + trail;
    var a, b := |lead|, |lead| + |w|;
    if w == [] {
      assert AllSpace(s);
    } else {
      assert forall p | 0 <= p < a :: s[p] == lead[p];
      assert s[a] == w[0];
      RunEndIs(s, 0, a, IsSpace);
      assert forall p | b <= p < |s| :: s[p] == trail[p - b];
      assert s[b - 1] == w[|w| - 1];
      RunStartIs(s, a, |s|, b, IsSpace);
      assert s[a..b] == w;
    }
  }

  /** Whatever follows a non-blank core, `strip()` keeps the core at the
      front of its result once the leading whitespace is gone. */
  lemma TrimKeepsCore(lead: string, core: string, rest: string)
    requires AllSpace(lead) && core != [] && Trimmed(core)
    ensures StartsWith(Trim(lead + core + rest), core)
  {
    var s := lead + core + rest;
    var a := |lead|;
    assert forall p | 0 <= p < a :: s[p] == lead[p];
    assert s[a] == core[0];
    RunEndIs(s, 0, a, IsSpace);
    var b := RunStart(s, a, |s|, IsSpace);
    assert !IsSpace(s[a + |core| - 1]) by {
      assert s[a + |core| - 1] == core[|core| - 1];
    }
    assert s[a..b][..|core|] == s[a..a + |core|] == core;
  }

  lemma LowerAppend(a: string, b: string)
    ensures Lower(a + b) == Lower(a) + Lower(b)
  {
    forall k | 0 <= k < |a + b| ensures Lower(a + b)[k] == (Lower(a) + Lower(b))[k] {
      if k < |a| {
        assert (a + b)[k] == a[k];
      } else {
        assert (a + b)[k] == b[k - |a|];
      }
    }
  }

  /** `lower()` maps whitespace to whitespace and nothing else to it. */
  lemma LowerKeepsSpacing(s: string)
    ensures AllSpace(Lower(s)) <==> AllSpace(s)
    ensures Trimmed(Lower(s)) <==> Trimmed(s)
  {
    assert AllSpace(Lower(s)) ==> AllSpace(s) by {
      if AllSpace(Lower(s)) {
        forall k | 0 <= k < |s| ensures IsSpace(s[k]) {
          assert IsSpace(Lower(s)[k]);
        }
      }
    }
  }

  /** Lower-casing keeps whitespace where it was, so it commutes with
      `strip()`: `s.strip().lower() == s.lower().strip()`. */
  lemma TrimLowerCommute(s: string)
    ensures Trim(Lower(s)) == Lower(Trim(s))
  {
    var r := Trim(s);
    var lead, trail := TrimSplit(s);
    LowerAppend(lead + r, trail);
    LowerAppend(lead, r);
    LowerKeepsSpacing(lead);
    LowerKeepsSpacing(r);
    LowerKeepsSpacing(trail);
    TrimPadded(Lower(lead), Lower(r), Lower(trail));
  }

  /** `strip()` leaves a string without outer whitespace as it is. */
  lemma TrimOfTrimmed(v: string)
    requires Trimmed(v)
    ensures Trim(v) == v
  {
    TrimPadded([], v, []);
    assert [] + v + [] == v;
  }

  /** `lower()` leaves a string without upper-case letters as it is. */
  lemma LowerOfLowerCase(v: string)
    requires forall k | 0 <= k < |v| :: !IsUpper(v[k])
    ensures Lower(v) == v
  {
    forall k | 0 <= k < |v| ensures Lower(v)[k] == v[k] {
      assert !IsUpper(v[k]);
    }
  }

  /** Normalising twice is normalising once. */
  lemma NormalizeIdempotent(value: string)
    ensures Normalize(Normalize(value)) == Normalize(value)
  {
    var v := Normalize(value);
    TrimOfTrimmed(v);
    LowerOfLowerCase(v);
  }

  /** `convert_to_days` sees its input only through `strip().lower()`. */
  lemma ConvertOfNormalForm(value: string)
    ensures ConvertToDays(Normalize(value)) == ConvertToDays(value)
  {
    NormalizeIdempotent(value);
  }

  /** Inputs that differ only in letter case normalise alike. */
  lemma NormalizeIgnoresCase(s: string, t: string)
    requires SameIgnoringCase(s, t)
    ensures Normalize(s) == Normalize(t)
  {
    TrimLowerCommute(s);
    TrimLowerCommute(t);
    assert Lower(s) == Lower(t);
  }

  /** Inputs that differ only in letter case convert alike. */
  lemma ConvertIgnoresCase(s: string, t: string)
    requires SameIgnoringCase(s, t)
    ensures ConvertToDays(s) == ConvertToDays(t)
  {
    NormalizeIgnoresCase(s, t);
  }

  /** A word padded with whitespace normalises to its lower-case form. */
  lemma NormalizePadded(lead: string, w: string, trail: string, canon: string)
    requires AllSpace(lead) && AllSpace(trail)
    requires SameIgnoringCase(w, canon) && Trimmed(canon)
    requires forall k | 0 <= k < |canon| :: !IsUpper(canon[k])
    ensures Normalize(lead + w + trail) == canon
  {
    assert Trimmed(w) by {
      if w != [] {
        assert LowerChar(w[0]) == canon[0];
        assert LowerChar(w[|w| - 1]) == canon[|canon| - 1];
      }
    }
    TrimPadded(lead, w, trail);
    assert Lower(w) == canon;
  }

  // ---------------------------------------------------------------------
  // Facts about convert_to_days
  // ---------------------------------------------------------------------

  /** `na`, in any letter case and with any surrounding whitespace, is 0. */
  lemma ConvertNa(lead: string, w: string, trail: string)
    requires AllSpace(lead) && AllSpace(trail) && SameIgnoringCase(w, "na")
    ensures ConvertToDays(lead + w + trail) == 0
  {
    NormalizePadded(lead, w, trail, "na");
  }

  /** The phrase `coterminous with loan tenure`, in any letter case and
      with any surrounding whitespace, is ten years of 365 days. */
  lemma ConvertCoterminous(lead: string, w: string, trail: string)
    requires AllSpace(lead) && AllSpace(trail) && SameIgnoringCase(w, CoterminousPhrase)
    ensures ConvertToDays(lead + w + trail) == 3650
  {
    NormalizePadded(lead, w, trail, CoterminousPhrase);
  }

  /** A string that starts with `a + b + c` holds `a`, then `b`, then
      starts with `c`. */
  lemma PrefixParts(v: string, a: string, b: string, c: string)
    requires StartsWith(v, a + b + c)
    ensures v[..|a|] == a && v[|a|..|a| + |b|] == b && StartsWith(v[|a| + |b|..], c)
  {
    var abc := a + b + c;
    assert v[..|abc|] == abc;
    assert v[..|a|] == abc[..|a|];
    assert v[|a|..|a| + |b|] == abc[|a|..|a| + |b|];
    assert v[|a| + |b|..][..|c|] == abc[|a| + |b|..];
  }

  /** The pattern matches every string that starts with digits, optional
      whitespace and a unit word, whatever follows; group 1 is the digits. */
  lemma ScanPrefix(v: string, ds: string, ws: string, u: Unit)
    requires ds != [] && AllDigits(ds) && AllSpace(ws)
    requires StartsWith(v, ds + ws + UnitWord(u))
    ensures ScanDuration(v) == Some(Match(|ds|, |ds| + |ws|, u))
    ensures v[..|ds|] == ds
  {
    PrefixParts(v, ds, ws, UnitWord(u));
    assert MatchesAt(v, |ds|, |ds| + |ws|, u);
  }

  // Solver aid: associativity of `+`, stated apart from any `Lower` term.
  lemma Regroup(a: string, b: string, c: string, d: string, e: string)
    ensures a + b + c + d + e == a + (b + c + d) + e
  {
  }

  /** Lower-casing leaves digits, whitespace and a unit word already in
      lower case as they are, and turns a unit word in any case into it. */
  lemma LowerUnitPhrase(ds: string, ws: string, w: string, u: Unit)
    requires AllDigits(ds) && AllSpace(ws) && SameIgnoringCase(w, UnitWord(u))
    ensures Lower(ds + ws + w) == ds + ws + UnitWord(u)
  {
    LowerAppend(ds + ws, w);
    LowerAppend(ds, ws);
    LowerOfLowerCase(ds);
    LowerOfLowerCase(ws);
    UnitWordLowerCase(u);
    assert Lower(w) == Lower(UnitWord(u));
  }

  /** Lower-casing a recognised input keeps its digits, spacing and unit
      word in place, in lower case. */
  lemma LowerRecognised(lead: string, ds: string, ws: string, w: string, rest: string, u: Unit)
    requires AllDigits(ds) && AllSpace(ws) && SameIgnoringCase(w, UnitWord(u))
    ensures Lower(lead + ds + ws + w + rest) == Lower(lead) + (ds + ws + UnitWord(u)) + Lower(rest)
  {
    var mid := ds + ws + w;
    LowerUnitPhrase(ds, ws, w, u);
    Regroup(lead, ds, ws, w, rest);
    LowerAppend(lead + mid, rest);
    LowerAppend(lead, mid);
  }

  /** After `strip().lower()`, an input of the form
      whitespace, digits, whitespace, unit word (any case), anything
      starts with the digits, the whitespace and the lower-case unit word. */
  lemma NormalizeRecognised(lead: string, ds: string, ws: string, w: string, rest: string, u: Unit)
    requires AllSpace(lead) && ds != [] && AllDigits(ds) && AllSpace(ws)
    requires SameIgnoringCase(w, UnitWord(u))
    ensures StartsWith(Normalize(lead + ds + ws + w + rest), ds + ws + UnitWord(u))
  {
    var s := lead + ds + ws + w + rest;
    var core := ds + ws + UnitWord(u);
    LowerRecognised(lead, ds, ws, w, rest, u);
    LowerKeepsSpacing(lead);
    assert Trimmed(core) by {
      assert core[0] == ds[0];
      assert core[|core| - 1] == UnitWord(u)[|UnitWord(u)| - 1];
    }
    TrimKeepsCore(Lower(lead), core, Lower(rest));
    TrimLowerCommute(s);
  }

  /** An input that starts (after whitespace) with n digits, optional
      whitespace and `days`, `months` or `years` in any case gives n, 30n
      or 365n days; whatever follows the unit word is ignored. */
  lemma ConvertRecognised(lead: string, ds: string, ws: string, w: string, rest: string, u: Unit)
    requires AllSpace(lead) && ds != [] && AllDigits(ds) && AllSpace(ws)
    requires SameIgnoringCase(w, UnitWord(u))
    ensures ConvertToDays(lead + ds + ws + w + rest) == DigitsValue(ds) * Factor(u)
  {
    var v := Normalize(lead + ds + ws + w + rest);
    NormalizeRecognised(lead, ds, ws, w, rest, u);
    ScanPrefix(v, ds, ws, u);
    assert v[0] == ds[0];
    assert v != "na" && v != CoterminousPhrase;
  }

  /** `"<n> days"`, `"<n> months"` and `"<n> years"`, with n written as
      `str(n)` does, give n, 30n and 365n: converting a day count written
      back as `"<n> days"` gives the same count. */
  lemma ConvertDecimal(n: nat, u: Unit)
    ensures ConvertToDays(DecimalString(n) + " " + UnitWord(u)) == n * Factor(u)
  {
    var ds, w := DecimalString(n), UnitWord(u);
    assert [] + ds + " " + w + [] == ds + " " + w;
    assert AllSpace(" ");
    assert SameIgnoringCase(w, w);
    ConvertRecognised([], ds, " ", w, [], u);
  }

  /** Example: `"  Na "` gives 0. */
  lemma ConvertNaExample(value: string)
    requires value == "  Na "
    ensures ConvertToDays(value) == 0
  {
    assert "  " + "Na" + " " == value;
    assert SameIgnoringCase("Na", "na");
    ConvertNa("  ", "Na", " ");
  }

  /** Example: `"5 DAYS"` gives 5, as `"5 days"` does. */
  lemma ConvertUpperCaseExample(value: string, lower: string)
    requires value == "5 DAYS" && lower == "5 days"
    ensures ConvertToDays(value) == ConvertToDays(lower) == 5
  {
    assert SameIgnoringCase(value, lower);
    ConvertIgnoresCase(value, lower);
    ConvertTrailingTextExample(lower, []);
  }

  /** Example: the text after the unit word is ignored, so `"5 daysXYZ"`
      (and `"5 days"` itself) gives 5. */
  lemma ConvertTrailingTextExample(value: string, rest: string)
    requires value == "5 days" + rest
    ensures ConvertToDays(value) == 5
  {
    assert [] + "5" + " " + "days" + rest == value;
    assert SameIgnoringCase("days", UnitWord(Days));
    assert DigitsValue("5") == 5;
    ConvertRecognised([], "5", " ", "days", rest, Days);
  }

  /** Example: leading zeros are read as `int()` reads them, so
      `"007 days"` gives 7. */
  lemma ConvertLeadingZerosExample(value: string)
    requires value == "007 days"
    ensures ConvertToDays(value) == 7
  {
    assert [] + "007" + " " + "days" + [] == value;
    assert SameIgnoringCase("days", UnitWord(Days));
    DigitsValueLeadingZero("07");
    DigitsValueLeadingZero("7");
    assert "0" + "07" == "007" && "0" + "7" == "07";
    assert DigitsValue("7") == 7;
    ConvertRecognised([], "007", " ", "days", [], Days);
  }

  /** Example: any whitespace may separate number and unit, so
      `"5\x1cmonths"` gives 150. */
  lemma ConvertSeparatorExample(value: string)
    requires value == "5\U{1C}months"
    ensures ConvertToDays(value) == 150
  {
    assert [] + "5" + "\U{1C}" + "months" + [] == value;
    assert SameIgnoringCase("months", UnitWord(Months));
    assert DigitsValue("5") == 5;
    ConvertRecognised([], "5", "\U{1C}", "months", [], Months);
  }

  /** A string of digits alone never matches the pattern: the unit word
      is missing. */
  lemma ScanDigitsOnly(ds: string)
    requires AllDigits(ds)
    ensures ScanDuration(ds) == None
  {
    forall i: nat, j: nat, u: Unit ensures !MatchesAt(ds, i, j, u) {
      if j < |ds| {
        assert IsDigit(ds[j]);
        assert ds[j] == ds[j..][0];
      }
    }
    var r := ScanDuration(ds);
    assert r.Some? ==> MatchesAt(ds, r.value.digitsEnd, r.value.unitStart, r.value.unit);
  }

  /** A bare number without a unit, padded or not, gives 0; so does the
      empty or all-whitespace string. */
  lemma ConvertBareDigits(lead: string, ds: string, trail: string)
    requires AllSpace(lead) && AllDigits(ds) && AllSpace(trail)
    ensures ConvertToDays(lead + ds + trail) == 0
  {
    LowerOfLowerCase(ds);
    NormalizePadded(lead, ds, trail, ds);
    ScanDigitsOnly(ds);
    assert ds != [] ==> ds[0] != "na"[0] && ds[0] != CoterminousPhrase[0];
  }

  /** `"<n> day"` is already in normal form. */
  lemma SingularDayNormal(n: nat)
    ensures Normalize(DecimalString(n) + " day") == DecimalString(n) + " day"
  {
    var ds := DecimalString(n);
    var s := ds + " day";
    assert Trimmed(s) by { assert s[0] == ds[0]; }
    assert forall k | 0 <= k < |s| :: !IsUpper(s[k]) by {
      forall k | 0 <= k < |s| ensures !IsUpper(s[k]) {
        if k >= |ds| { assert s[k] == " day"[k - |ds|]; }
      }
    }
    TrimOfTrimmed(s);
    LowerOfLowerCase(s);
  }

  /** `"<n> day"` does not match the pattern: after the digits and the
      space only `day` is left, shorter than every unit word. */
  lemma SingularDayNoMatch(n: nat)
    ensures ScanDuration(DecimalString(n) + " day") == None
  {
    var ds := DecimalString(n);
    var s := ds + " day";
    assert s[..|ds|] == ds && s[|ds|] == ' ' && s[|ds| + 1] == 'd';
    RunEndIs(s, 0, |ds|, IsDigit);
    RunEndIs(s, |ds|, |ds| + 1, IsSpace);
    assert |s[|ds| + 1..]| == 3;
    assert UnitAt(s, |ds| + 1) == None;
  }

  /** The singular `"<n> day"` is not a unit word, so it gives 0. */
  lemma ConvertSingularDay(n: nat)
    ensures ConvertToDays(DecimalString(n) + " day") == 0
  {
    var ds := DecimalString(n);
    SingularDayNormal(n);
    SingularDayNoMatch(n);
    assert (ds + " day")[0] == ds[0];
  }

  /** `re.match` failing gives 0: an input whose normal form is neither
      special phrase and that the pattern does not match (`"5 weeks"`,
      `"5.5 years"`, `"12 mo"`) converts to 0 days. */
  lemma ConvertNoMatch(value: string)
    requires Normalize(value) != "na" && Normalize(value) != CoterminousPhrase
    requires forall i, j, u :: !MatchesAt(Normalize(value), i, j, u)
    ensures ConvertToDays(value) == 0
  {
  }

  /** `re.match` succeeding gives `int(number) * unit_conversion[unit]`:
      whatever match of the pattern the normal form has, the input
      converts to the value of its group 1 times the factor of its
      group 2. */
  lemma ConvertMatch(value: string, i: nat, j: nat, u: Unit)
    requires MatchesAt(Normalize(value), i, j, u)
    ensures ConvertToDays(value) == DigitsValue(Normalize(value)[..i]) * Factor(u)
  {
    var v := Normalize(value);
    assert v[0] == v[..i][0];
    assert IsDigit(v[0]);
    assert ScanDuration(v) == Some(Match(i, j, u));
  }

  /** An input whose normal form is neither special phrase and does not
      start with a digit gives 0. */
  lemma ConvertNoLeadingDigit(value: string)
    requires Normalize(value) != "na" && Normalize(value) != CoterminousPhrase
    requires Normalize(value) == [] || !IsDigit(Normalize(value)[0])
    ensures ConvertToDays(value) == 0
  {
  }
}
