/** The browser's form rules (timeforing-app-gui validation.ts): the zod
    schemas for the registration form and the profile update, the Norwegian
    mobile-number pattern, its normalising transform, and the display
    formatter `formatMobileNumber`. */
module FormValidation {
  import opened Wrappers
  import opened Text

  const MsgNavnRequired: string := "Navn er påkrevd"
  const MsgNavnMin: string := "Navn må være minst 2 tegn"
  const MsgNavnMax: string := "Navn kan ikke være lenger enn 50 tegn"
  const MsgMobilRequired: string := "Mobilnummer er påkrevd"
  const MsgMobilInvalid: string := "Ugyldig norsk mobilnummer"
  const MsgEpostRequired: string := "Epost er påkrevd"
  const MsgEpostInvalid: string := "Ugyldig epost adresse"

  predicate IsDigit(c: char) {
    '0' <= c <= '9'
  }

  /** `[4-9]\d{7}`: eight digits, the first of them 4 to 9. */
  predicate IsNationalNumber(s: string) {
    |s| == 8 && '4' <= s[0] <= '9' && forall i :: 0 <= i < 8 ==> IsDigit(s[i])
  }

  /** The optional group `(\+47|0047|47)?`. */
  const CountryPrefixes: set<string> := {"", "+47", "0047", "47"}

  /** `^(\+47|0047|47)?[4-9]\d{7}$` as a regular expression means it: the
      string splits into one of the country prefixes (or none) followed by a
      national number, the split being free to choose (backtracking). */
  ghost predicate MatchesMobileRegex(s: string) {
    exists k :: 0 <= k <= |s| && s[..k] in CountryPrefixes && IsNationalNumber(s[k..])
  }

  /** The same pattern, alternative by alternative. */
  predicate MobilePattern(s: string) {
    || IsNationalNumber(s)
    || (StartsWith(s, "+47") && IsNationalNumber(s[3..]))
    || (StartsWith(s, "0047") && IsNationalNumber(s[4..]))
    || (StartsWith(s, "47") && IsNationalNumber(s[2..]))
  }

  lemma MobilePatternIsRegex(s: string)
    ensures MobilePattern(s) <==> MatchesMobileRegex(s)
  {
    if MobilePattern(s) {
      if IsNationalNumber(s) {
        assert s[..0] == "" && s[0..] == s;
      } else if StartsWith(s, "+47") && IsNationalNumber(s[3..]) {
        assert s[..3] == "+47";
      } else if StartsWith(s, "0047") && IsNationalNumber(s[4..]) {
        assert s[..4] == "0047";
      } else {
        assert s[..2] == "47";
      }
    }
    if MatchesMobileRegex(s) {
      var k :| 0 <= k <= |s| && s[..k] in CountryPrefixes && IsNationalNumber(s[k..]);
      var p := s[..k];
      assert p == "" || p == "+47" || p == "0047" || p == "47";
      if p == "" {
        assert s[k..] == s;
      } else if p == "+47" {
        assert |p| == 3 && StartsWith(s, "+47");
      } else if p == "0047" {
        assert |p| == 4 && StartsWith(s, "0047");
      } else {
        assert |p| == 2 && StartsWith(s, "47");
      }
    }
  }

  /** `isValidNorwegianMobile`: whitespace removed, then the pattern. */
  predicate IsValidNorwegianMobile(mobile: string)
    ensures IsValidNorwegianMobile(mobile) <==> MatchesMobileRegex(StripSpace(JavaScript, mobile))
  {
    MobilePatternIsRegex(StripSpace(JavaScript, mobile));
    MobilePattern(StripSpace(JavaScript, mobile))
  }

  /** The `.transform` of the mobile field (the same in both schemas, once
      the value is non-empty). */
  function NormalizeMobile(val: string): (r: string)
    ensures StartsWith(r, "+47")
    ensures NoSpace(JavaScript, r)
  {
    PrefixCountryCode(StripSpace(JavaScript, val))
  }

  /** The branches of the transform, on the value with whitespace removed. */
  function PrefixCountryCode(cleaned: string): (r: string)
    requires NoSpace(JavaScript, cleaned)
    ensures StartsWith(r, "+47")
    ensures NoSpace(JavaScript, r)
  {
    if StartsWith(cleaned, "+47") then cleaned
    else if StartsWith(cleaned, "47") then "+" + cleaned
    else if StartsWith(cleaned, "0047") then
      assert SliceFrom(cleaned, 2)[..2] == cleaned[2..4] == "47";
      "+" + SliceFrom(cleaned, 2)
    else "+47" + cleaned
  }

  /** The national number of a valid mobile string: its last eight characters
      once whitespace is removed. */
  function NationalPart(mobile: string): string
    requires IsValidNorwegianMobile(mobile)
  {
    LastEight(StripSpace(JavaScript, mobile))
  }

  function LastEight(cleaned: string): string
    requires |cleaned| >= 8
  {
    cleaned[|cleaned| - 8..]
  }

  lemma FirstChar(s: string, prefix: string)
    requires StartsWith(s, prefix) && |prefix| > 0
    ensures s[0] == prefix[0]
  {
    assert s[..|prefix|][0] == s[0];
  }

  /** A string matching the pattern is one of four shapes, told apart by its
      first characters and its length. */
  lemma PatternShapes(cleaned: string)
    requires MobilePattern(cleaned)
    ensures |cleaned| >= 8
    ensures IsNationalNumber(LastEight(cleaned))
    ensures if StartsWith(cleaned, "+47") then |cleaned| == 11
      else if StartsWith(cleaned, "0047") then |cleaned| == 12
      else if |cleaned| == 10 then StartsWith(cleaned, "47")
      else |cleaned| == 8
  {
    if StartsWith(cleaned, "+47") {
      FirstChar(cleaned, "+47");
      if StartsWith(cleaned, "47") { FirstChar(cleaned, "47"); }
      if StartsWith(cleaned, "0047") { FirstChar(cleaned, "0047"); }
    } else if StartsWith(cleaned, "0047") {
      FirstChar(cleaned, "0047");
      if StartsWith(cleaned, "47") { FirstChar(cleaned, "47"); }
    }
  }

  lemma PrefixPlus47(cleaned: string)
    requires NoSpace(JavaScript, cleaned) && StartsWith(cleaned, "+47") && |cleaned| == 11
    ensures PrefixCountryCode(cleaned) == "+47" + LastEight(cleaned)
  {
    assert cleaned == cleaned[..3] + cleaned[3..];
  }

  lemma Prefix47(cleaned: string)
    requires NoSpace(JavaScript, cleaned) && !StartsWith(cleaned, "+47") && StartsWith(cleaned, "47")
    ensures PrefixCountryCode(cleaned) == "+" + cleaned
    ensures |cleaned| == 10 ==> PrefixCountryCode(cleaned) == "+47" + LastEight(cleaned)
  {
    if |cleaned| == 10 {
      assert cleaned == cleaned[..2] + cleaned[2..];
    }
  }

  lemma Prefix0047(cleaned: string)
    requires NoSpace(JavaScript, cleaned) && !StartsWith(cleaned, "+47") && !StartsWith(cleaned, "47")
    requires StartsWith(cleaned, "0047") && |cleaned| == 12
    ensures PrefixCountryCode(cleaned) == "+47" + LastEight(cleaned)
  {
    Prefix0047Transform(cleaned);
    Drop0047(cleaned);
    var rest := cleaned[4..];
    assert "+" + ("47" + rest) == "+47" + rest;
  }

  lemma Prefix0047Transform(cleaned: string)
    requires NoSpace(JavaScript, cleaned) && !StartsWith(cleaned, "+47") && !StartsWith(cleaned, "47")
    requires StartsWith(cleaned, "0047")
    ensures PrefixCountryCode(cleaned) == "+" + cleaned[2..]
  {
  }

  lemma Drop0047(cleaned: string)
    requires StartsWith(cleaned, "0047")
    ensures cleaned[2..] == "47" + cleaned[4..]
  {
    assert cleaned[2..4] == cleaned[..4][2..4] == "47";
  }

  lemma PrefixValid(cleaned: string)
    requires NoSpace(JavaScript, cleaned) && MobilePattern(cleaned)
    ensures |cleaned| >= 8
    ensures if |cleaned| == 8 && StartsWith(cleaned, "47")
      then PrefixCountryCode(cleaned) == "+" + cleaned
      else PrefixCountryCode(cleaned) == "+47" + LastEight(cleaned)
  {
    PatternShapes(cleaned);
    if StartsWith(cleaned, "+47") {
      PrefixPlus47(cleaned);
    } else if StartsWith(cleaned, "47") {
      Prefix47(cleaned);
    } else if StartsWith(cleaned, "0047") {
      Prefix0047(cleaned);
    } else {
      assert LastEight(cleaned) == cleaned;
    }
  }

  /** A valid number normalises to "+47" and its national number, except an
      eight-digit number that itself begins with 47: that one only gains "+". */
  lemma NormalizeValid(mobile: string)
    requires IsValidNorwegianMobile(mobile)
    ensures var cleaned := StripSpace(JavaScript, mobile);
      if |cleaned| == 8 && StartsWith(cleaned, "47")
      then NormalizeMobile(mobile) == "+" + cleaned
      else NormalizeMobile(mobile) == "+47" + NationalPart(mobile)
  {
    PrefixValid(StripSpace(JavaScript, mobile));
  }

  /** An eight-digit national number that itself begins with 47 is accepted
      by the pattern, but the transform reads its 47 as the country code and
      only adds "+": the result is "+" and eight digits, not "+47" and eight. */
  lemma NormalizeNational47(n: string)
    requires IsNationalNumber(n) && StartsWith(n, "47")
    ensures IsValidNorwegianMobile(n)
    ensures NormalizeMobile(n) == "+" + n
  {
    NationalNumberNoSpace(n);
    assert n[0] != '+';
    if StartsWith(n, "+47") {
      FirstChar(n, "+47");
    }
  }

  /** `"+47 " + number.slice(0, 3) + " " + number.slice(3, 5) + " " + number.slice(5)`. */
  function Grouped(number: string): string {
    "+47 " + Slice(number, 0, 3) + " " + Slice(number, 3, 5) + " " + SliceFrom(number, 5)
  }

  /** `formatMobileNumber`. */
  function FormatMobileNumber(mobile: string): (r: string)
    ensures r == mobile || StartsWith(r, "+47 ")
  {
    var cleaned := StripSpace(JavaScript, mobile);
    if StartsWith(cleaned, "+47") then Grouped(SliceFrom(cleaned, 3))
    else if StartsWith(cleaned, "0047") then Grouped(SliceFrom(cleaned, 4))
    else if StartsWith(cleaned, "47") && |cleaned| == 10 then Grouped(SliceFrom(cleaned, 2))
    else if |cleaned| == 8 && '4' <= cleaned[0] <= '9' then Grouped(cleaned)
    else mobile
  }

  /** What `formatMobileNumber` shows for a valid number: "+47 ddd dd ddd"
      of its national number, whichever prefix it was written with. */
  lemma FormatValid(mobile: string)
    requires IsValidNorwegianMobile(mobile)
    ensures var d := NationalPart(mobile);
      FormatMobileNumber(mobile) == "+47 " + d[..3] + " " + d[3..5] + " " + d[5..]
  {
    var cleaned := StripSpace(JavaScript, mobile);
    PatternShapes(cleaned);
    var d := NationalPart(mobile);
    assert Grouped(d) == "+47 " + d[..3] + " " + d[3..5] + " " + d[5..];
    if StartsWith(cleaned, "+47") {
      assert SliceFrom(cleaned, 3) == d;
    } else if StartsWith(cleaned, "0047") {
      assert SliceFrom(cleaned, 4) == d;
    } else if StartsWith(cleaned, "47") && |cleaned| == 10 {
      assert SliceFrom(cleaned, 2) == d;
    } else {
      assert |cleaned| == 8 && cleaned == d;
    }
  }

  /** Anything that is neither "+47…", "0047…", a ten-character "47…" nor an
      eight-character string starting with 4 to 9 (after whitespace removal)
      comes back exactly as given, spaces and all. */
  lemma FormatLeavesOthers(mobile: string)
    requires var cleaned := StripSpace(JavaScript, mobile);
      && !StartsWith(cleaned, "+47") && !StartsWith(cleaned, "0047")
      && !(StartsWith(cleaned, "47") && |cleaned| == 10)
      && !(|cleaned| == 8 && '4' <= cleaned[0] <= '9')
    ensures FormatMobileNumber(mobile) == mobile
  {
  }

  lemma {:induction false} NoSpaceSlice(s: string, i: int, j: int)
    requires NoSpace(JavaScript, s)
    ensures NoSpace(JavaScript, Slice(s, i, j))
  {
    var r := Slice(s, i, j);
    if r != [] {
      var from := SliceIndex(i, |s|);
      assert forall m :: 0 <= m < |r| ==> r[m] == s[from + m];
    }
  }

  lemma StripAppendNoSpace(s: string, t: string)
    requires NoSpace(JavaScript, t)
    ensures StripSpace(JavaScript, s + t) == StripSpace(JavaScript, s) + t
  {
    StripSpaceAppend(JavaScript, s, t);
  }

  lemma StripAppendBlank(s: string)
    ensures StripSpace(JavaScript, s + " ") == StripSpace(JavaScript, s)
  {
    StripSpaceAppend(JavaScript, s, " ");
    assert StripSpace(JavaScript, " ") == "";
  }

  /** Removing whitespace across a blank that joins two parts. */
  lemma StripAcrossBlank(s: string, t: string)
    requires NoSpace(JavaScript, t)
    ensures StripSpace(JavaScript, s + " " + t) == StripSpace(JavaScript, s) + t
  {
    StripAppendNoSpace(s + " ", t);
    StripAppendBlank(s);
  }

  /** Removing the spaces between space-free groups joins the groups. */
  lemma StripThreeBlanks(p: string, a: string, b: string, c: string)
    requires NoSpace(JavaScript, p) && NoSpace(JavaScript, a)
    requires NoSpace(JavaScript, b) && NoSpace(JavaScript, c)
    ensures StripSpace(JavaScript, p + " " + a + " " + b + " " + c) == p + a + b + c
  {
    var s1 := p + " " + a;
    StripAcrossBlank(p, a);
    assert StripSpace(JavaScript, s1) == p + a;
    var s2 := s1 + " " + b;
    StripAcrossBlank(s1, b);
    assert StripSpace(JavaScript, s2) == p + a + b;
    StripAcrossBlank(s2, c);
  }

  /** Removing the spaces of a grouped number gives "+47" and the number back. */
  lemma StripGrouped(number: string)
    requires NoSpace(JavaScript, number)
    ensures StripSpace(JavaScript, Grouped(number)) == "+47" + number
  {
    var a, b, c := Slice(number, 0, 3), Slice(number, 3, 5), SliceFrom(number, 5);
    NoSpaceSlice(number, 0, 3);
    NoSpaceSlice(number, 3, 5);
    NoSpaceSlice(number, 5, |number|);
    var p := "+47";
    assert NoSpace(JavaScript, p);
    assert Grouped(number) == p + " " + a + " " + b + " " + c;
    StripThreeBlanks(p, a, b, c);
    SliceThreeParts(number);
    assert p + a + b + c == p + (a + b + c);
  }

  /** Formatting a grouped number changes nothing. */
  lemma FormatGroupedIsFixed(number: string)
    requires NoSpace(JavaScript, number)
    ensures FormatMobileNumber(Grouped(number)) == Grouped(number)
  {
    StripGrouped(number);
    var cleaned := "+47" + number;
    assert StartsWith(cleaned, "+47");
    assert SliceFrom(cleaned, 3) == number;
  }

  /** `formatMobileNumber` is idempotent: formatting what it returned gives
      the same string again. */
  lemma FormatIdempotent(mobile: string)
    ensures FormatMobileNumber(FormatMobileNumber(mobile)) == FormatMobileNumber(mobile)
  {
    var cleaned := StripSpace(JavaScript, mobile);
    if StartsWith(cleaned, "+47") {
      NoSpaceSlice(cleaned, 3, |cleaned|);
      FormatGroupedIsFixed(SliceFrom(cleaned, 3));
    } else if StartsWith(cleaned, "0047") {
      NoSpaceSlice(cleaned, 4, |cleaned|);
      FormatGroupedIsFixed(SliceFrom(cleaned, 4));
    } else if StartsWith(cleaned, "47") && |cleaned| == 10 {
      NoSpaceSlice(cleaned, 2, |cleaned|);
      FormatGroupedIsFixed(SliceFrom(cleaned, 2));
    } else if |cleaned| == 8 && '4' <= cleaned[0] <= '9' {
      FormatGroupedIsFixed(cleaned);
    }
  }

  // ---------------------------------------------------------------------------
  // The zod schemas. zod runs every check of a field and collects the issues of
  // all that fail, in order; a refinement still runs after a failed length
  // check; a transform (and `.trim()`, `.toLowerCase()`) applies only to a value
  // that passed, and `.min`/`.max` see the value before it is trimmed.

  datatype Parse<T> = Valid(value: T) | Invalid(issues: seq<string>)

  function Issue(failed: bool, message: string): seq<string> {
    if failed then [message] else []
  }

  /** `userFormSchema.navn`. */
  function NavnField(input: string): (r: Parse<string>)
    ensures r.Valid? <==> 2 <= |input| <= 50
    ensures r.Valid? ==> r.value == Trim(JavaScript, input)
    ensures input == "" ==> r == Invalid([MsgNavnRequired, MsgNavnMin])
    ensures |input| == 1 ==> r == Invalid([MsgNavnMin])
    ensures |input| > 50 ==> r == Invalid([MsgNavnMax])
  {
    var issues := Issue(|input| < 1, MsgNavnRequired) + Issue(|input| < 2, MsgNavnMin)
      + Issue(|input| > 50, MsgNavnMax);
    if issues == [] then Valid(Trim(JavaScript, input)) else Invalid(issues)
  }

  /** `userFormSchema.mobil`. */
  function MobilField(input: string): (r: Parse<string>)
    ensures r.Valid? <==> IsValidNorwegianMobile(input)
    ensures r.Valid? ==> StartsWith(r.value, "+47") && NoSpace(JavaScript, r.value)
    ensures r.Valid? ==> r.value == NormalizeMobile(input)
    ensures input == "" ==> r == Invalid([MsgMobilRequired, MsgMobilInvalid])
    ensures input != "" && !IsValidNorwegianMobile(input) ==> r == Invalid([MsgMobilInvalid])
  {
    var issues := Issue(|input| < 1, MsgMobilRequired)
      + Issue(!IsValidNorwegianMobile(input), MsgMobilInvalid);
    if issues == [] then Valid(NormalizeMobile(input)) else Invalid(issues)
  }

  /** `userFormSchema.epost`; `emailOk` is zod's own e-mail check of the input,
      which the model takes as given. */
  function EpostField(input: string, emailOk: bool): (r: Parse<string>)
    ensures r.Valid? <==> input != "" && emailOk
    ensures r.Valid? ==> r.value == Trim(JavaScript, Lower(input))
    ensures input == "" ==> r.Invalid? && |r.issues| >= 1 && r.issues[0] == MsgEpostRequired
  {
    var issues := Issue(|input| < 1, MsgEpostRequired) + Issue(!emailOk, MsgEpostInvalid);
    if issues == [] then Valid(Trim(JavaScript, Lower(input))) else Invalid(issues)
  }

  datatype UserFormData = UserFormData(navn: string, mobil: string, epost: string)

  /** `userFormSchema.safeParse`: the fields in declaration order, all their
      issues together. */
  function ParseUserForm(navn: string, mobil: string, epost: string, emailOk: bool): (r: Parse<UserFormData>)
    ensures r.Valid? <==> NavnField(navn).Valid? && MobilField(mobil).Valid? && EpostField(epost, emailOk).Valid?
    ensures r.Valid? ==> r.value == UserFormData(NavnField(navn).value, MobilField(mobil).value, EpostField(epost, emailOk).value)
    ensures r.Invalid? ==> r.issues == IssuesOf(NavnField(navn)) + IssuesOf(MobilField(mobil)) + IssuesOf(EpostField(epost, emailOk))
  {
    match (NavnField(navn), MobilField(mobil), EpostField(epost, emailOk))
    case (Valid(n), Valid(m), Valid(e)) => Valid(UserFormData(n, m, e))
    case (fn, fm, fe) => Invalid(IssuesOf(fn) + IssuesOf(fm) + IssuesOf(fe))
  }

  function IssuesOf<T>(p: Parse<T>): seq<string> {
    if p.Invalid? then p.issues else []
  }

  /** `profileUpdateSchema.navn`: optional, 2 to 50 characters. */
  function ProfileNavnField(input: Option<string>): (r: Parse<Option<string>>)
    ensures input.None? ==> r == Valid(None)
    ensures input.Some? ==> (r.Valid? <==> 2 <= |input.value| <= 50)
    ensures input.Some? && r.Valid? ==> r.value == Some(Trim(JavaScript, input.value))
  {
    match input
    case None => Valid(None)
    case Some(s) =>
      var issues := Issue(|s| < 2, MsgNavnMin) + Issue(|s| > 50, MsgNavnMax);
      if issues == [] then Valid(Some(Trim(JavaScript, s))) else Invalid(issues)
  }

  /** `profileUpdateSchema.mobil`: optional, and an empty string is accepted
      and becomes undefined. */
  function ProfileMobilField(input: Option<string>): (r: Parse<Option<string>>)
    ensures input.None? || input == Some("") ==> r == Valid(None)
    ensures input.Some? && input.value != "" ==>
      (r.Valid? <==> IsValidNorwegianMobile(input.value))
    ensures r.Valid? && r.value.Some? ==>
      input.Some? && r.value.value == NormalizeMobile(input.value) && StartsWith(r.value.value, "+47")
  {
    match input
    case None => Valid(None)
    case Some(s) =>
      if s == "" then Valid(None)
      else if !IsValidNorwegianMobile(s) then Invalid([MsgMobilInvalid])
      else Valid(Some(NormalizeMobile(s)))
  }

  /** `profileUpdateSchema.epost`: optional; `emailOk` as for the form. */
  function ProfileEpostField(input: Option<string>, emailOk: bool): (r: Parse<Option<string>>)
    ensures input.None? ==> r == Valid(None)
    ensures input.Some? ==> (r.Valid? <==> emailOk)
    ensures input.Some? && r.Valid? ==> r.value == Some(Trim(JavaScript, Lower(input.value)))
  {
    match input
    case None => Valid(None)
    case Some(s) => if emailOk then Valid(Some(Trim(JavaScript, Lower(s)))) else Invalid([MsgEpostInvalid])
  }

  lemma NationalNumberNoSpace(n: string)
    requires IsNationalNumber(n)
    ensures NoSpace(JavaScript, n)
  {
    assert forall i :: 0 <= i < |n| ==> IsDigit(n[i]);
  }

  /** A national number typed after "+47 " is accepted and stored without
      the space. */
  lemma MobilFieldSpacedCountryCode(n: string)
    requires IsNationalNumber(n)
    ensures MobilField("+47 " + n) == Valid("+47" + n)
  {
    NationalNumberNoSpace(n);
    StripAppendNoSpace("+47 ", n);
    StripAppendBlank("+47");
    assert StripSpace(JavaScript, "+47") == "+47";
    assert "+47 " == "+47" + " ";
    var c := "+47" + n;
    assert StartsWith(c, "+47") && c[3..] == n;
  }

  /** The registration form accepts "+47 41234567" and stores "+4741234567". */
  lemma MobilFieldExample()
    ensures MobilField("+47 41234567") == Valid("+4741234567")
  {
    var n := "41234567";
    ExampleIsNational();
    assert "+47 41234567" == "+47 " + n;
    assert "+4741234567" == "+47" + n;
    MobilFieldSpacedCountryCode(n);
  }

  lemma ExampleIsNational()
    ensures IsNationalNumber("41234567")
  {
    var n := "41234567";
    assert |n| == 8 && n[0] == '4';
    assert forall i :: 0 <= i < 8 ==> IsDigit(n[i]);
  }

  /** The empty form reports every field's issues, in field order. */
  lemma EmptyFormExample()
    ensures ParseUserForm("", "", "", false)
      == Invalid([MsgNavnRequired, MsgNavnMin, MsgMobilRequired, MsgMobilInvalid, MsgEpostRequired, MsgEpostInvalid])
  {
    assert StripSpace(JavaScript, "") == "";
  }
}
