/**
 * What `validate_config` and `read_range` guarantee, stated over the report
 * that `ValidateConfig` is proved to return.
 */
module CheckCfgProperties {
  import opened Wrappers
  import opened PyStr
  import opened CheckCfgParams

  // ------------------------------------------------------------ read_range

  lemma NumeralChars(n: int)
    ensures 'R' !in IntToString(n) && 'r' !in IntToString(n)
    ensures ',' !in IntToString(n) && '[' !in IntToString(n) && ']' !in IntToString(n)
  {
    var s := IntToString(n);
    forall i | 0 <= i < |s|
      ensures s[i] != 'R' && s[i] != 'r' && s[i] != ',' && s[i] != '[' && s[i] != ']'
    {
      assert IsDigit(s[i]) || s[i] == '-';
    }
  }

  /** The bracketed bounds `[lo,hi]` of a range directive. */
  function Bounds(lo: int, hi: int): string {
    "[" + IntToString(lo) + "," + IntToString(hi) + "]"
  }

  /** The `RANGE[lo,hi]` directive text, with the token spelled `token`. */
  function RangeDirective(token: string, lo: int, hi: int): string {
    token + Bounds(lo, hi)
  }

  /** Removing the two tokens from `token + inner` leaves `inner`, when `inner` has no `R` or `r`. */
  lemma TokensRemoved(token: string, inner: string)
    requires token == "RANGE" || token == "range"
    requires 'R' !in inner && 'r' !in inner
    ensures RemoveAll(RemoveAll(token + inner, "RANGE"), "range") == inner
  {
    var value := token + inner;
    RemoveAllAbsent(inner, "RANGE");
    RemoveAllAbsent(inner, "range");
    assert value[..5] == token && value[5..] == inner;
    if token == "range" {
      assert 'R' !in value by {
        forall i | 0 <= i < |value| ensures value[i] != 'R' {
          if i >= 5 { assert value[i] == inner[i - 5]; }
        }
      }
      RemoveAllAbsent(value, "RANGE");
    }
  }

  /** Stripping the brackets of `[a,b]` leaves `a,b` when `a` and `b` are numerals. */
  lemma BracketsStripped(lo: int, hi: int)
    ensures Strip(Bounds(lo, hi), {'[', ']'}) == IntToString(lo) + [','] + IntToString(hi)
  {
    var a, b := IntToString(lo), IntToString(hi);
    var mid := a + [','] + b;
    assert Bounds(lo, hi) == ['['] + mid + [']'];
    NumeralChars(lo);
    NumeralChars(hi);
    assert mid[0] == a[0] && a[0] in a;
    assert mid[|mid| - 1] == b[|b| - 1] && b[|b| - 1] in b;
    StripEnclosed('[', mid, ']', {'[', ']'});
  }

  /** What `read_range` splits, for a well-formed directive: the two numerals around a comma. */
  lemma BoundsWithoutTokenLetters(lo: int, hi: int)
    ensures 'R' !in Bounds(lo, hi) && 'r' !in Bounds(lo, hi)
  {
    var a, b := IntToString(lo), IntToString(hi);
    NumeralChars(lo);
    NumeralChars(hi);
    assert Bounds(lo, hi) == ['['] + a + [','] + b + [']'];
  }

  lemma RangeBodyOf(token: string, lo: int, hi: int)
    requires token == "RANGE" || token == "range"
    ensures RangeBody(RangeDirective(token, lo, hi)) == IntToString(lo) + [','] + IntToString(hi)
  {
    BracketsStripped(lo, hi);
    BoundsWithoutTokenLetters(lo, hi);
    TokensRemoved(token, Bounds(lo, hi));
  }

  /**
   * A well-formed directive reads back as its bounds, with the token in
   * upper or lower case: `read_range("RANGE[lo,hi]") == (lo, hi)`.
   */
  lemma ReadRangeWellFormed(token: string, lo: int, hi: int)
    requires token == "RANGE" || token == "range"
    ensures ReadRange(RangeDirective(token, lo, hi)) == Some((lo, hi))
  {
    NumeralChars(lo);
    NumeralChars(hi);
    RangeBodyOf(token, lo, hi);
    ReadRangeTwoParts(RangeDirective(token, lo, hi), IntToString(lo), IntToString(hi));
    ParseIntRoundTrip(lo);
    ParseIntRoundTrip(hi);
  }

  /**
   * Exactly two comma-separated parts: the directive gives a range if and
   * only if both parts are integers.
   */
  lemma ReadRangeTwoParts(value: string, a: string, b: string)
    requires ',' !in a && ',' !in b && RangeBody(value) == a + [','] + b
    ensures ReadRange(value)
         == if ParseInt(a).Some? && ParseInt(b).Some? then Some((ParseInt(a).value, ParseInt(b).value)) else None
  {
    SplitTwo(a, b, ',');
  }

  /**
   * `read_range` returns `(lo, hi)` exactly when what is left of the
   * directive is two comma-free parts around one comma that `int` reads as
   * `lo` and `hi`.
   */
  lemma ReadRangeIff(value: string, lo: int, hi: int)
    ensures ReadRange(value) == Some((lo, hi))
        <==> exists a, b :: ',' !in a && ',' !in b && RangeBody(value) == a + [','] + b
               && ParseInt(a) == Some(lo) && ParseInt(b) == Some(hi)
  {
    var parts := Split(RangeBody(value), ',');
    if ReadRange(value) == Some((lo, hi)) {
      JoinSplit(RangeBody(value), ',');
      assert Join(parts, ',') == parts[0] + [','] + parts[1];
      assert ',' !in parts[0] && ',' !in parts[1];
    }
    if exists a, b :: ',' !in a && ',' !in b && RangeBody(value) == a + [','] + b
         && ParseInt(a) == Some(lo) && ParseInt(b) == Some(hi) {
      var a, b :| ',' !in a && ',' !in b && RangeBody(value) == a + [','] + b
                  && ParseInt(a) == Some(lo) && ParseInt(b) == Some(hi);
      ReadRangeTwoParts(value, a, b);
    }
  }

  /** A value whose upper case starts with `RANGE` starts with `R` or `r`. */
  lemma TokenFirstLetter(value: string)
    requires StartsWith(Upper(value), "RANGE")
    ensures value[0] == 'R' || value[0] == 'r'
  {
    var u := Upper(value);
    assert u[0] == u[..5][0];
    UpperCharR(value[0]);
  }

  /** ... and has no other `R` or `r` among its first five characters. */
  lemma TokenOtherLetters(value: string)
    requires StartsWith(Upper(value), "RANGE")
    ensures forall i :: 1 <= i < 5 ==> value[i] != 'R' && value[i] != 'r'
  {
    var u := Upper(value);
    forall i | 1 <= i < 5 ensures value[i] != 'R' && value[i] != 'r' {
      assert u[i] == u[..5][i];
      assert u[..5][i] != 'R';
      UpperCharR(value[i]);
    }
  }

  /**
   * Only the exact tokens `RANGE` and `range` are removed: a directive that
   * the dispatch treats as a range directive but whose token has any other
   * spelling (such as `Range[1,5]` or `rANGE[1,5]`) gives no range, because
   * its first letter stays in front of the bounds.
   */
  lemma MixedCaseTokenRejected(value: string)
    requires StartsWith(Upper(value), "RANGE") && value[..5] != "RANGE" && value[..5] != "range"
    ensures ReadRange(value) == None
  {
    TokenFirstLetter(value);
    FirstLetterKept(value);
    FrontLetterRejected(value);
  }

  /** When an `R` or `r` is left in front after the tokens are removed, there is no range. */
  lemma FrontLetterRejected(value: string)
    requires var w := RemoveAll(RemoveAll(value, "RANGE"), "range"); w != [] && (w[0] == 'R' || w[0] == 'r')
    ensures ReadRange(value) == None
  {
    var w := RemoveAll(RemoveAll(value, "RANGE"), "range");
    StripLeftUntouched(w, {'[', ']'});
    var body := RangeBody(value);
    assert body == StripRight(w, {'[', ']'});
    assert body != [] && body[0] == w[0] by {
      assert w[0] !in {'[', ']'};
    }
    var parts := Split(body, ',');
    ParseIntRejects(parts[0]);
  }

  /** The first letter of a mixed-case token survives the removal of both exact tokens. */
  lemma FirstLetterKept(value: string)
    requires StartsWith(Upper(value), "RANGE") && value[..5] != "RANGE" && value[..5] != "range"
    ensures var w := RemoveAll(RemoveAll(value, "RANGE"), "range"); w != [] && w[0] == value[0]
  {
    TokenOtherLetters(value);
    var p, rest := value[..5], value[5..];
    assert value == p + rest;
    assert forall i :: 1 <= i < |p| ==> p[i] == value[i];
    PrefixNoOccurrence(p, rest, "RANGE");
    RemoveAllKeepsPrefix(p, rest, "RANGE");
    var tail := RemoveAll(rest, "RANGE");
    PrefixNoOccurrence(p, tail, "range");
    RemoveAllKeepsPrefix(p, tail, "range");
    assert (p + RemoveAll(tail, "range"))[0] == p[0];
  }

  /** `Range[1,5]`, or `Range` followed by anything, is dispatched as a range directive without bounds. */
  lemma MixedCaseExample(rest: string)
    ensures Classify("Range" + rest) == RangeCheck(None)
  {
    var v := "Range" + rest;
    var u := Upper(v);
    assert StartsWith(u, "RANGE") by {
      forall i | 0 <= i < 5 ensures u[i] == "RANGE"[i] {
        assert v[i] == "Range"[i];
      }
      assert u[..5] == "RANGE";
    }
    assert v[..5] != "RANGE" && v[..5] != "range" by {
      assert v[0] == 'R' && v[1] == 'a';
    }
    MixedCaseTokenRejected(v);
  }

  // -------------------------------------------------------------- file name

  /** The file name shown in messages is the part of the path after its last `/`. */
  lemma {:induction false} FileNameOfPath(dir: string, name: string)
    requires '/' !in name
    ensures FileName(dir + "/" + name) == name
  {
    var p := dir + "/" + name;
    if name != [] {
      var init := name[..|name| - 1];
      assert name[|name| - 1] in name;
      assert p[..|p| - 1] == dir + "/" + init;
      FileNameOfPath(dir, init);
      assert init + [name[|name| - 1]] == name;
    }
  }

  // ------------------------------------------------------ report structure

  /** Every triple's diagnostic is in the report. */
  lemma ReportContainsVerdict(actual: Config, expected: Config, path: string, section: string, key: string)
    requires section in expected && key in expected[section]
    requires Verdict(actual, section, key, expected[section][key], FileName(path)).Some?
    ensures Verdict(actual, section, key, expected[section][key], FileName(path)).value in Report(actual, expected, path)
  {
    var f := FileName(path);
    var d := Verdict(actual, section, key, expected[section][key], f).value;
    assert d in SectionDiagnostics(actual, section, expected[section], expected[section].Keys, f);
  }

  /** Every diagnostic in the report comes from one triple of `expected`. */
  lemma ReportAttribution(actual: Config, expected: Config, path: string, d: Diagnostic)
    requires d in Report(actual, expected, path)
    ensures d.section in expected && d.file == FileName(path)
    ensures exists key :: key in expected[d.section]
              && Verdict(actual, d.section, key, expected[d.section][key], FileName(path)) == Some(d)
  {
    var f := FileName(path);
    var s :| s in expected && d in SectionDiagnostics(actual, s, expected[s], expected[s].Keys, f);
    var k :| k in expected[s] && Verdict(actual, s, k, expected[s][k], f).Some?
             && Verdict(actual, s, k, expected[s][k], f).value == d;
    assert Verdict(actual, s, k, expected[s][k], f) == Some(d);
  }

  /** `d` is a message about key `key` of section `section`. */
  predicate About(d: Diagnostic, section: string, key: string) {
    !d.SectionMissing? && d.section == section && d.key == key
  }

  /** The messages of a report about one key. */
  function KeyReport(report: set<Diagnostic>, section: string, key: string): set<Diagnostic> {
    set d | d in report && About(d, section, key)
  }

  /**
   * The messages about one expected key are exactly the one its own triple
   * gives, if any: no other triple speaks about it.
   */
  lemma KeyReportIsVerdict(actual: Config, expected: Config, path: string, section: string, key: string)
    requires section in expected && key in expected[section]
    ensures var v := Verdict(actual, section, key, expected[section][key], FileName(path));
            KeyReport(Report(actual, expected, path), section, key)
            == if v.Some? && !v.value.SectionMissing? then {v.value} else {}
  {
    var f := FileName(path);
    var v := Verdict(actual, section, key, expected[section][key], f);
    var report := Report(actual, expected, path);
    if v.Some? {
      ReportContainsVerdict(actual, expected, path, section, key);
    }
    forall d | d in KeyReport(report, section, key)
      ensures v == Some(d)
    {
      ReportAttribution(actual, expected, path, d);
      var k :| k in expected[d.section] && Verdict(actual, d.section, k, expected[d.section][k], f) == Some(d);
    }
  }

  // -------------------------------------------------------------- MUST_EXIST

  /** On an absent section, only `MUST_EXIST` speaks, and it gives the section message. */
  lemma VerdictSectionAbsent(actual: Config, section: string, key: string, value: string, file: string)
    requires section !in actual
    ensures Verdict(actual, section, key, value, file)
         == if Classify(value).MustExist? then Some(SectionMissing(section, file)) else None
  {
  }

  /**
   * `MUST_EXIST` on a section that is absent: the section message is
   * reported, and no message at all about a key of that section.
   */
  lemma MustExistSectionAbsent(actual: Config, expected: Config, path: string, section: string, key: string)
    requires section in expected && key in expected[section]
    requires Upper(expected[section][key]) == "MUST_EXIST"
    requires section !in actual
    ensures SectionMissing(section, FileName(path)) in Report(actual, expected, path)
    ensures forall d :: d in Report(actual, expected, path) && d.section == section
              ==> d == SectionMissing(section, FileName(path))
  {
    var f := FileName(path);
    VerdictSectionAbsent(actual, section, key, expected[section][key], f);
    ReportContainsVerdict(actual, expected, path, section, key);
    forall d | d in Report(actual, expected, path) && d.section == section
      ensures d == SectionMissing(section, f)
    {
      ReportAttribution(actual, expected, path, d);
      var k :| k in expected[section] && Verdict(actual, section, k, expected[section][k], f) == Some(d);
      VerdictSectionAbsent(actual, section, k, expected[section][k], f);
    }
  }

  /**
   * `MUST_EXIST` on a section that is present: the key message is reported
   * if and only if the key is absent, and the section message never is.
   */
  lemma MustExistSectionPresent(actual: Config, expected: Config, path: string, section: string, key: string)
    requires section in expected && key in expected[section]
    requires Upper(expected[section][key]) == "MUST_EXIST"
    requires section in actual
    ensures KeyReport(Report(actual, expected, path), section, key)
         == if key in actual[section] then {} else {KeyMissing(key, section, FileName(path))}
    ensures SectionMissing(section, FileName(path)) !in Report(actual, expected, path)
  {
    KeyReportIsVerdict(actual, expected, path, section, key);
    if SectionMissing(section, FileName(path)) in Report(actual, expected, path) {
      ReportAttribution(actual, expected, path, SectionMissing(section, FileName(path)));
    }
  }

  // --------------------------------------------------- SHOULD_NOT_BE_PRESENT

  /** `SHOULD_NOT_BE_PRESENT`: reported if and only if both section and key exist. */
  lemma ShouldNotBePresentIff(actual: Config, expected: Config, path: string, section: string, key: string)
    requires section in expected && key in expected[section]
    requires Upper(expected[section][key]) == "SHOULD_NOT_BE_PRESENT"
    ensures KeyReport(Report(actual, expected, path), section, key)
         == if section in actual && key in actual[section] then {Forbidden(key, section, FileName(path))} else {}
  {
    KeyReportIsVerdict(actual, expected, path, section, key);
  }

  // ------------------------------------------------------------------ RANGE

  /**
   * `RANGE` on a present key: a non-integer value is an ERROR whatever the
   * directive; an integer value is a COUNT exactly when the directive gives
   * bounds and the value lies outside them; a malformed directive with an
   * integer value reports nothing.
   */
  lemma RangeChecked(actual: Config, expected: Config, path: string, section: string, key: string)
    requires section in expected && key in expected[section]
    requires StartsWith(Upper(expected[section][key]), "RANGE")
    requires section in actual && key in actual[section]
    ensures KeyReport(Report(actual, expected, path), section, key)
         == match ParseInt(actual[section][key])
            case None => {NotInteger(key, section, FileName(path))}
            case Some(n) =>
              match ReadRange(expected[section][key])
              case None => {}
              case Some(bounds) =>
                if bounds.0 <= n <= bounds.1 then {} else {OutOfRange(key, section, FileName(path), bounds)}
  {
    KeyReportIsVerdict(actual, expected, path, section, key);
  }

  /**
   * The bounds in a COUNT message read back: between the parentheses of
   * `PairToString(p)` there is one comma, and `int` turns the text before it
   * into `p.0` and the text after it into `p.1`.
   */
  lemma PairToStringReadsBack(p: (int, int))
    ensures var r := PairToString(p);
      var parts := Split(r[1..|r| - 1], ',');
      |parts| == 2 && ParseInt(parts[0]) == Some(p.0) && ParseInt(parts[1]) == Some(p.1)
  {
    var a, b := IntToString(p.0), IntToString(p.1);
    var r := PairToString(p);
    assert r[1..|r| - 1] == a + [','] + (" " + b);
    NumeralChars(p.0);
    NumeralChars(p.1);
    SplitTwo(a, " " + b, ',');
    ParseIntRoundTrip(p.0);
    ParseIntPadded(" ", p.1, "");
    assert " " + b + "" == " " + b;
  }

  /**
   * A range directive or a literal value on a key that is absent from the
   * actual configuration (section or key missing) is silently accepted.
   */
  lemma AbsenceTolerated(actual: Config, expected: Config, path: string, section: string, key: string)
    requires section in expected && key in expected[section]
    requires Upper(expected[section][key]) != "MUST_EXIST"
    requires section !in actual || key !in actual[section]
    ensures KeyReport(Report(actual, expected, path), section, key) == {}
  {
    KeyReportIsVerdict(actual, expected, path, section, key);
  }

  // ---------------------------------------------------------------- literal

  predicate IsLiteral(value: string) {
    Classify(value).Literal?
  }

  /** A literal value: MISSMATCH if and only if the key exists with different text. */
  lemma LiteralMismatchIff(actual: Config, expected: Config, path: string, section: string, key: string)
    requires section in expected && key in expected[section]
    requires IsLiteral(expected[section][key])
    ensures KeyReport(Report(actual, expected, path), section, key)
         == if section in actual && key in actual[section] && actual[section][key] != expected[section][key]
            then {Mismatch(key, section, actual[section][key], FileName(path), expected[section][key])}
            else {}
  {
    KeyReportIsVerdict(actual, expected, path, section, key);
  }

  // ------------------------------------------------------------ whole report

  /** The report is empty if and only if every expected triple passes. */
  lemma ReportEmptyIff(actual: Config, expected: Config, path: string)
    ensures Report(actual, expected, path) == {}
        <==> forall s, k :: s in expected && k in expected[s]
               ==> Verdict(actual, s, k, expected[s][k], FileName(path)) == None
  {
    if Report(actual, expected, path) == {} {
      forall s, k | s in expected && k in expected[s]
        ensures Verdict(actual, s, k, expected[s][k], FileName(path)) == None
      {
        if Verdict(actual, s, k, expected[s][k], FileName(path)).Some? {
          ReportContainsVerdict(actual, expected, path, s, k);
        }
      }
    } else {
      var d :| d in Report(actual, expected, path);
      ReportAttribution(actual, expected, path, d);
    }
  }

  /**
   * With literal directives only, a file passes if and only if every expected
   * key it has carries exactly the expected text.
   */
  lemma LiteralsPassIff(actual: Config, expected: Config, path: string)
    requires forall s, k :: s in expected && k in expected[s] ==> IsLiteral(expected[s][k])
    ensures Report(actual, expected, path) == {}
        <==> forall s, k :: s in expected && k in expected[s] && s in actual && k in actual[s]
               ==> actual[s][k] == expected[s][k]
  {
    ReportEmptyIff(actual, expected, path);
    forall s, k | s in expected && k in expected[s]
      ensures Verdict(actual, s, k, expected[s][k], FileName(path)) == None
          <==> (s in actual && k in actual[s] ==> actual[s][k] == expected[s][k])
    {
      assert IsLiteral(expected[s][k]);
    }
  }

  /** What a triple can see of the actual configuration. */
  datatype View = NoSection | NoKey | Present(value: string)

  function ViewOf(actual: Config, section: string, key: string): View {
    if section !in actual then NoSection
    else if key !in actual[section] then NoKey
    else Present(actual[section][key])
  }

  /** Two actual configurations that look the same at every expected key. */
  ghost predicate AgreeOnExpected(a1: Config, a2: Config, expected: Config) {
    forall s, k :: s in expected && k in expected[s] ==> ViewOf(a1, s, k) == ViewOf(a2, s, k)
  }

  /**
   * The verdict of a triple, computed from its view alone. It follows
   * `Verdict`'s branches and exists only so that `VerdictByView` can state
   * that the verdict depends on nothing but the view (`VerdictSeesView`).
   */
  function VerdictOfView(view: View, section: string, key: string, value: string, file: string): Option<Diagnostic> {
    match Classify(value)
    case MustExist =>
      if view.NoSection? then Some(SectionMissing(section, file))
      else if view.NoKey? then Some(KeyMissing(key, section, file))
      else None
    case ShouldNotBePresent =>
      if view.Present? then Some(Forbidden(key, section, file)) else None
    case RangeCheck(bounds) =>
      if view.Present? then
        match ParseInt(view.value)
        case None => Some(NotInteger(key, section, file))
        case Some(n) =>
          if bounds.Some? && !(bounds.value.0 <= n <= bounds.value.1) then
            Some(OutOfRange(key, section, file, bounds.value))
          else None
      else None
    case Literal(_) =>
      if view.Present? && view.value != value then
        Some(Mismatch(key, section, view.value, file, value))
      else None
  }

  lemma VerdictByView(actual: Config, section: string, key: string, value: string, file: string)
    ensures Verdict(actual, section, key, value, file) == VerdictOfView(ViewOf(actual, section, key), section, key, value, file)
  {
    if section in actual && key in actual[section] {
      PresentKeyVerdict(actual, section, key, value, file);
    }
  }

  lemma PresentKeyVerdict(actual: Config, section: string, key: string, value: string, file: string)
    requires section in actual && key in actual[section]
    ensures Verdict(actual, section, key, value, file) == VerdictOfView(Present(actual[section][key]), section, key, value, file)
  {
    if Classify(value).RangeCheck? {
      PresentKeyRangeVerdict(actual, section, key, value, file);
    }
  }

  lemma PresentKeyRangeVerdict(actual: Config, section: string, key: string, value: string, file: string)
    requires section in actual && key in actual[section] && Classify(value).RangeCheck?
    ensures Verdict(actual, section, key, value, file) == VerdictOfView(Present(actual[section][key]), section, key, value, file)
  {
  }

  lemma VerdictSeesView(a1: Config, a2: Config, section: string, key: string, value: string, file: string)
    requires ViewOf(a1, section, key) == ViewOf(a2, section, key)
    ensures Verdict(a1, section, key, value, file) == Verdict(a2, section, key, value, file)
  {
    VerdictByView(a1, section, key, value, file);
    VerdictByView(a2, section, key, value, file);
  }

  lemma {:induction false} ReportIncluded(a1: Config, a2: Config, expected: Config, path: string)
    requires AgreeOnExpected(a1, a2, expected)
    ensures Report(a1, expected, path) <= Report(a2, expected, path)
  {
    var f := FileName(path);
    forall d | d in Report(a1, expected, path)
      ensures d in Report(a2, expected, path)
    {
      ReportAttribution(a1, expected, path, d);
      var k :| k in expected[d.section] && Verdict(a1, d.section, k, expected[d.section][k], f) == Some(d);
      VerdictSeesView(a1, a2, d.section, k, expected[d.section][k], f);
      ReportContainsVerdict(a2, expected, path, d.section, k);
    }
  }

  /**
   * The validator is driven by the expectation: sections and keys that only
   * the actual configuration has never change the report.
   */
  lemma ReportDependsOnExpectedKeysOnly(a1: Config, a2: Config, expected: Config, path: string)
    requires AgreeOnExpected(a1, a2, expected)
    ensures Report(a1, expected, path) == Report(a2, expected, path)
  {
    ReportIncluded(a1, a2, expected, path);
    ReportIncluded(a2, a1, expected, path);
  }

  lemma ExtraSectionIgnored(actual: Config, expected: Config, path: string, section: string, params: Section)
    requires section !in expected
    ensures Report(actual[section := params], expected, path) == Report(actual, expected, path)
  {
    ReportDependsOnExpectedKeysOnly(actual[section := params], actual, expected, path);
  }

  lemma ExtraKeyIgnored(actual: Config, expected: Config, path: string, section: string, key: string, value: string)
    requires section in actual
    requires section !in expected || key !in expected[section]
    ensures Report(actual[section := actual[section][key := value]], expected, path) == Report(actual, expected, path)
  {
    ReportDependsOnExpectedKeysOnly(actual[section := actual[section][key := value]], actual, expected, path);
  }

  /** An expectation of one key reports exactly that key's diagnostic. */
  lemma SingleEntryReport(actual: Config, section: string, key: string, value: string, path: string)
    ensures Report(actual, map[section := map[key := value]], path)
         == ToSet(Verdict(actual, section, key, value, FileName(path)))
  {
    var expected := map[section := map[key := value]];
    var v := Verdict(actual, section, key, value, FileName(path));
    if v.Some? {
      ReportContainsVerdict(actual, expected, path, section, key);
    }
    forall d | d in Report(actual, expected, path)
      ensures v == Some(d)
    {
      ReportAttribution(actual, expected, path, d);
    }
  }
}
