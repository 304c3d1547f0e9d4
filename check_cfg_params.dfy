/**
 * The rule validator of `utils/check_cfg_params.py`: it compares an actual
 * configuration with an expected one whose values are directives, and
 * collects a set of diagnostics and a pass/fail flag.
 *
 * A configuration is what `configparser` produced: section name to key to
 * raw string value. Each expected value is read as one of four directives:
 * `MUST_EXIST`, `SHOULD_NOT_BE_PRESENT` (both compared after upper-casing),
 * anything whose upper-cased text starts with `RANGE`, or a literal value.
 */
module CheckCfgParams {
  import opened Wrappers
  import opened PyStr

  type Section = map<string, string>
  type Config = map<string, Section>

  // ------------------------------------------------------------ read_range

  /** The directive text once the `RANGE`/`range` tokens and the brackets are gone:
      no longer than the directive, made of its characters, and bracket-free at both ends. */
  function RangeBody(value: string): (r: string)
    ensures |r| <= |value|
    ensures forall i :: 0 <= i < |r| ==> r[i] in value
    ensures r == [] || (r[0] != '[' && r[0] != ']' && r[|r| - 1] != '[' && r[|r| - 1] != ']')
  {
    var w := RemoveAll(RemoveAll(value, "RANGE"), "range");
    var r := Strip(w, {'[', ']'});
    StripSlice(w, {'[', ']'});
    r
  }

  /**
   * `read_range`: the two integers of a `RANGE[start,end]` directive, or `None`
   * when what remains after removing the token and the brackets is not
   * exactly two comma-separated integers.
   */
  function ReadRange(value: string): (r: Option<(int, int)>)
    ensures r.Some? ==> CountChar(RangeBody(value), ',') == 1
  {
    var parts := Split(RangeBody(value), ',');
    if |parts| == 2 && ParseInt(parts[0]).Some? && ParseInt(parts[1]).Some? then
      Some((ParseInt(parts[0]).value, ParseInt(parts[1]).value))
    else
      None
  }

  // ------------------------------------------------------------ directives

  /** The four interpretations of an expected value, in the order they are tried. */
  datatype Directive =
    | MustExist
    | ShouldNotBePresent
    | RangeCheck(bounds: Option<(int, int)>)
    | Literal(expected: string)

  /**
   * The directive an expected value stands for: the two keywords and the
   * `RANGE` prefix are recognised in any letter case, and anything else is
   * a literal compared as it is.
   */
  function Classify(value: string): (r: Directive)
    ensures r.MustExist? <==> Upper(value) == "MUST_EXIST"
    ensures r.ShouldNotBePresent? <==> Upper(value) == "SHOULD_NOT_BE_PRESENT"
    ensures r.RangeCheck? <==> StartsWith(Upper(value), "RANGE")
    ensures r.RangeCheck? ==> r.bounds == ReadRange(value)
    ensures r.Literal? ==> r.expected == value
  {
    var upper := Upper(value);
    if upper == "MUST_EXIST" then
      assert upper[0] == 'M';
      MustExist
    else if upper == "SHOULD_NOT_BE_PRESENT" then
      assert upper[0] == 'S';
      ShouldNotBePresent
    else if StartsWith(upper, "RANGE") then RangeCheck(ReadRange(value))
    else Literal(value)
  }

  // ----------------------------------------------------------- diagnostics

  /** One constructor per message template; `file` is the file name shown. */
  datatype Diagnostic =
    | SectionMissing(section: string, file: string)
    | KeyMissing(key: string, section: string, file: string)
    | Forbidden(key: string, section: string, file: string)
    | OutOfRange(key: string, section: string, file: string, bounds: (int, int))
    | NotInteger(key: string, section: string, file: string)
    | Mismatch(key: string, section: string, actual: string, file: string, expected: string)

  /** The category tag a message starts with. */
  function Tag(d: Diagnostic): string {
    match d
    case SectionMissing(_, _) => "MUST"
    case KeyMissing(_, _, _) => "MUST"
    case Forbidden(_, _, _) => "NOT_BE"
    case OutOfRange(_, _, _, _) => "COUNT"
    case NotInteger(_, _, _) => "ERROR"
    case Mismatch(_, _, _, _, _) => "MISSMATCH"
  }

  /** Python's rendering of a pair of integers, as in `f"{my_range}"`. */
  function PairToString(p: (int, int)): (r: string)
    ensures |r| >= 6 && r[0] == '(' && r[|r| - 1] == ')'
  {
    "(" + IntToString(p.0) + ", " + IntToString(p.1) + ")"
  }

  /** The message text the source adds to its output set. */
  function Render(d: Diagnostic): (r: string)
    ensures StartsWith(r, Tag(d) + ": ")
  {
    var head := Tag(d) + ": ";
    var r := head + Text(d);
    assert r[..|head|] == head;
    r
  }

  /** The text of a message after its tag. */
  function Text(d: Diagnostic): string {
    match d
    case SectionMissing(s, f) =>
      "[" + s + "] section should be present in " + f
    case KeyMissing(k, s, f) =>
      "'" + k + "' should be present in section [" + s + "] in " + f
    case Forbidden(k, s, f) =>
      "'" + k + "' should NOT be in section [" + s + "] in " + f
    case OutOfRange(k, s, f, b) =>
      "Value of '" + k + "' in [" + s + "] of " + f + " not in range " + PairToString(b)
    case NotInteger(k, s, f) =>
      "Value of '" + k + "' in [" + s + "] of " + f + " is not an integer"
    case Mismatch(k, s, a, f, e) =>
      "Value '" + k + "' in section [" + s + "] is '" + a + "' in '" + f + "' expected '" + e + "'"
  }

  /**
   * Every message text names its section and the file, the key unless it is
   * the section message, and the other values it carries: the bounds of a
   * COUNT, the actual and the expected text of a MISSMATCH.
   */
  lemma TextNames(d: Diagnostic)
    ensures Contains(Text(d), d.section) && Contains(Text(d), d.file)
    ensures !d.SectionMissing? ==> Contains(Text(d), d.key)
    ensures d.OutOfRange? ==> Contains(Text(d), PairToString(d.bounds))
    ensures d.Mismatch? ==> Contains(Text(d), d.actual) && Contains(Text(d), d.expected)
  {
    match d
    case SectionMissing(s, f) =>
      ContainsSuffix("[", s);
      ContainsAppend("[" + s, "] section should be present in ", s);
      ContainsAppend("[" + s + "] section should be present in ", f, s);
      ContainsSuffix("[" + s + "] section should be present in ", f);
    case KeyMissing(k, s, f) =>
      ContainsSuffix("'", k);
      ContainsAppend("'" + k, "' should be present in section [", k);
      ContainsAppend("'" + k + "' should be present in section [", s, k);
      ContainsAppend("'" + k + "' should be present in section [" + s, "] in ", k);
      ContainsAppend("'" + k + "' should be present in section [" + s + "] in ", f, k);
      ContainsSuffix("'" + k + "' should be present in section [", s);
      ContainsAppend("'" + k + "' should be present in section [" + s, "] in ", s);
      ContainsAppend("'" + k + "' should be present in section [" + s + "] in ", f, s);
      ContainsSuffix("'" + k + "' should be present in section [" + s + "] in ", f);
    case Forbidden(k, s, f) =>
      ContainsSuffix("'", k);
      ContainsAppend("'" + k, "' should NOT be in section [", k);
      ContainsAppend("'" + k + "' should NOT be in section [", s, k);
      ContainsAppend("'" + k + "' should NOT be in section [" + s, "] in ", k);
      ContainsAppend("'" + k + "' should NOT be in section [" + s + "] in ", f, k);
      ContainsSuffix("'" + k + "' should NOT be in section [", s);
      ContainsAppend("'" + k + "' should NOT be in section [" + s, "] in ", s);
      ContainsAppend("'" + k + "' should NOT be in section [" + s + "] in ", f, s);
      ContainsSuffix("'" + k + "' should NOT be in section [" + s + "] in ", f);
    case OutOfRange(k, s, f, b) =>
      ContainsSuffix("Value of '", k);
      ContainsAppend("Value of '" + k, "' in [", k);
      ContainsAppend("Value of '" + k + "' in [", s, k);
      ContainsAppend("Value of '" + k + "' in [" + s, "] of ", k);
      ContainsAppend("Value of '" + k + "' in [" + s + "] of ", f, k);
      ContainsAppend("Value of '" + k + "' in [" + s + "] of " + f, " not in range ", k);
      ContainsAppend("Value of '" + k + "' in [" + s + "] of " + f + " not in range ", PairToString(b), k);
      ContainsSuffix("Value of '" + k + "' in [", s);
      ContainsAppend("Value of '" + k + "' in [" + s, "] of ", s);
      ContainsAppend("Value of '" + k + "' in [" + s + "] of ", f, s);
      ContainsAppend("Value of '" + k + "' in [" + s + "] of " + f, " not in range ", s);
      ContainsAppend("Value of '" + k + "' in [" + s + "] of " + f + " not in range ", PairToString(b), s);
      ContainsSuffix("Value of '" + k + "' in [" + s + "] of ", f);
      ContainsAppend("Value of '" + k + "' in [" + s + "] of " + f, " not in range ", f);
      ContainsAppend("Value of '" + k + "' in [" + s + "] of " + f + " not in range ", PairToString(b), f);
      ContainsSuffix("Value of '" + k + "' in [" + s + "] of " + f + " not in range ", PairToString(b));
    case NotInteger(k, s, f) =>
      ContainsSuffix("Value of '", k);
      ContainsAppend("Value of '" + k, "' in [", k);
      ContainsAppend("Value of '" + k + "' in [", s, k);
      ContainsAppend("Value of '" + k + "' in [" + s, "] of ", k);
      ContainsAppend("Value of '" + k + "' in [" + s + "] of ", f, k);
      ContainsAppend("Value of '" + k + "' in [" + s + "] of " + f, " is not an integer", k);
      ContainsSuffix("Value of '" + k + "' in [", s);
      ContainsAppend("Value of '" + k + "' in [" + s, "] of ", s);
      ContainsAppend("Value of '" + k + "' in [" + s + "] of ", f, s);
      ContainsAppend("Value of '" + k + "' in [" + s + "] of " + f, " is not an integer", s);
      ContainsSuffix("Value of '" + k + "' in [" + s + "] of ", f);
      ContainsAppend("Value of '" + k + "' in [" + s + "] of " + f, " is not an integer", f);
    case Mismatch(k, s, a, f, e) =>
      ContainsSuffix("Value '", k);
      ContainsAppend("Value '" + k, "' in section [", k);
      ContainsAppend("Value '" + k + "' in section [", s, k);
      ContainsAppend("Value '" + k + "' in section [" + s, "] is '", k);
      ContainsAppend("Value '" + k + "' in section [" + s + "] is '", a, k);
      ContainsAppend("Value '" + k + "' in section [" + s + "] is '" + a, "' in '", k);
      ContainsAppend("Value '" + k + "' in section [" + s + "] is '" + a + "' in '", f, k);
      ContainsAppend("Value '" + k + "' in section [" + s + "] is '" + a + "' in '" + f, "' expected '", k);
      ContainsAppend("Value '" + k + "' in section [" + s + "] is '" + a + "' in '" + f + "' expected '", e, k);
      ContainsAppend("Value '" + k + "' in section [" + s + "] is '" + a + "' in '" + f + "' expected '" + e, "'", k);
      ContainsSuffix("Value '" + k + "' in section [", s);
      ContainsAppend("Value '" + k + "' in section [" + s, "] is '", s);
      ContainsAppend("Value '" + k + "' in section [" + s + "] is '", a, s);
      ContainsAppend("Value '" + k + "' in section [" + s + "] is '" + a, "' in '", s);
      ContainsAppend("Value '" + k + "' in section [" + s + "] is '" + a + "' in '", f, s);
      ContainsAppend("Value '" + k + "' in section [" + s + "] is '" + a + "' in '" + f, "' expected '", s);
      ContainsAppend("Value '" + k + "' in section [" + s + "] is '" + a + "' in '" + f + "' expected '", e, s);
      ContainsAppend("Value '" + k + "' in section [" + s + "] is '" + a + "' in '" + f + "' expected '" + e, "'", s);
      ContainsSuffix("Value '" + k + "' in section [" + s + "] is '", a);
      ContainsAppend("Value '" + k + "' in section [" + s + "] is '" + a, "' in '", a);
      ContainsAppend("Value '" + k + "' in section [" + s + "] is '" + a + "' in '", f, a);
      ContainsAppend("Value '" + k + "' in section [" + s + "] is '" + a + "' in '" + f, "' expected '", a);
      ContainsAppend("Value '" + k + "' in section [" + s + "] is '" + a + "' in '" + f + "' expected '", e, a);
      ContainsAppend("Value '" + k + "' in section [" + s + "] is '" + a + "' in '" + f + "' expected '" + e, "'", a);
      ContainsSuffix("Value '" + k + "' in section [" + s + "] is '" + a + "' in '", f);
      ContainsAppend("Value '" + k + "' in section [" + s + "] is '" + a + "' in '" + f, "' expected '", f);
      ContainsAppend("Value '" + k + "' in section [" + s + "] is '" + a + "' in '" + f + "' expected '", e, f);
      ContainsAppend("Value '" + k + "' in section [" + s + "] is '" + a + "' in '" + f + "' expected '" + e, "'", f);
      ContainsSuffix("Value '" + k + "' in section [" + s + "] is '" + a + "' in '" + f + "' expected '", e);
      ContainsAppend("Value '" + k + "' in section [" + s + "] is '" + a + "' in '" + f + "' expected '" + e, "'", e);
  }

  /** The same holds of the whole message, tag included. */
  lemma RenderNames(d: Diagnostic)
    ensures Contains(Render(d), d.section) && Contains(Render(d), d.file)
    ensures !d.SectionMissing? ==> Contains(Render(d), d.key)
    ensures d.OutOfRange? ==> Contains(Render(d), PairToString(d.bounds))
    ensures d.Mismatch? ==> Contains(Render(d), d.actual) && Contains(Render(d), d.expected)
  {
    TextNames(d);
    var h := Tag(d) + ": ";
    ContainsPrepend(h, Text(d), d.section);
    ContainsPrepend(h, Text(d), d.file);
    if !d.SectionMissing? {
      ContainsPrepend(h, Text(d), d.key);
    }
    if d.OutOfRange? {
      ContainsPrepend(h, Text(d), PairToString(d.bounds));
    }
    if d.Mismatch? {
      ContainsPrepend(h, Text(d), d.actual);
      ContainsPrepend(h, Text(d), d.expected);
    }
  }

  /** The messages of a set of diagnostics, as the source's set of strings: none exactly when there is no diagnostic. */
  function Messages(ds: set<Diagnostic>): (r: set<string>)
    ensures r == {} <==> ds == {}
  {
    var r := set d | d in ds :: Render(d);
    assert ds != {} ==> r != {} by {
      if ds != {} {
        var d :| d in ds;
        assert Render(d) in r;
      }
    }
    r
  }

  lemma MessagesSingleton(d: Diagnostic)
    ensures Messages({d}) == {Render(d)}
  {
  }

  /**
   * Collecting diagnostics rather than strings changes neither whether there
   * is a message nor how many at most: equal diagnostics render equally.
   */
  lemma {:induction false} MessagesOfDiagnostics(ds: set<Diagnostic>)
    ensures Messages(ds) == {} <==> ds == {}
    ensures |Messages(ds)| <= |ds|
    decreases |ds|
  {
    if ds != {} {
      var d :| d in ds;
      var rest := ds - {d};
      MessagesOfDiagnostics(rest);
      assert Messages(ds) == Messages(rest) + {Render(d)};
    }
  }

  // -------------------------------------------------------------- file name

  /** `path.split('/')[-1]`: the longest suffix of `path` without a slash. */
  function FileName(path: string): (r: string)
    ensures '/' !in r
    ensures EndsWith(path, r)
    ensures |r| < |path| ==> path[|path| - |r| - 1] == '/'
  {
    if path == [] then []
    else if path[|path| - 1] == '/' then []
    else
      var init := path[..|path| - 1];
      var q := FileName(init);
      var r := q + [path[|path| - 1]];
      assert '/' !in r by {
        assert forall c :: c in r ==> c in q || c == path[|path| - 1];
      }
      assert path[|path| - |r|..] == init[|init| - |q|..] + [path[|path| - 1]];
      r
  }

  // ------------------------------------------------------------ one triple

  /**
   * What one `(section, key, value)` triple of the expected configuration
   * contributes: at most one diagnostic, of the kind its directive checks.
   */
  function Verdict(actual: Config, section: string, key: string, value: string, file: string): (r: Option<Diagnostic>)
    ensures r.Some? ==> r.value.section == section && r.value.file == file
    ensures r.Some? && !r.value.SectionMissing? ==> r.value.key == key
    ensures r.Some? && r.value.SectionMissing? ==> section !in actual
    ensures r.Some? ==> match Classify(value)
                        case MustExist => r.value.SectionMissing? || r.value.KeyMissing?
                        case ShouldNotBePresent => r.value.Forbidden?
                        case RangeCheck(_) => r.value.OutOfRange? || r.value.NotInteger?
                        case Literal(_) => r.value.Mismatch?
  {
    match Classify(value)
    case MustExist =>
      if section !in actual then Some(SectionMissing(section, file))
      else if key !in actual[section] then Some(KeyMissing(key, section, file))
      else None
    case ShouldNotBePresent =>
      if section in actual && key in actual[section] then Some(Forbidden(key, section, file))
      else None
    case RangeCheck(bounds) =>
      if section in actual && key in actual[section] then
        match ParseInt(actual[section][key])
        case None => Some(NotInteger(key, section, file))
        case Some(n) =>
          if bounds.Some? && !(bounds.value.0 <= n <= bounds.value.1) then
            Some(OutOfRange(key, section, file, bounds.value))
          else None
      else None
    case Literal(_) =>
      if section in actual && key in actual[section] && actual[section][key] != value then
        Some(Mismatch(key, section, actual[section][key], file, value))
      else None
  }

  // --------------------------------------------------------- whole report

  /** The diagnostics of the triples of one expected section whose key is in `keys`. */
  function SectionDiagnostics(actual: Config, section: string, params: Section, keys: set<string>, file: string): set<Diagnostic> {
    set k | k in keys && k in params && Verdict(actual, section, k, params[k], file).Some?
      :: Verdict(actual, section, k, params[k], file).value
  }

  /** The diagnostics of every triple of the expected sections in `sections`. */
  function ConfigDiagnostics(actual: Config, expected: Config, sections: set<string>, file: string): set<Diagnostic> {
    set s, d | s in sections && s in expected && d in SectionDiagnostics(actual, s, expected[s], expected[s].Keys, file) :: d
  }

  /** What `validate_config(actual, expected, path)` returns as its output set. */
  function Report(actual: Config, expected: Config, path: string): (r: set<Diagnostic>)
    ensures forall d :: d in r ==> d.section in expected && d.file == FileName(path)
  {
    ConfigDiagnostics(actual, expected, expected.Keys, FileName(path))
  }

  lemma SectionStep(actual: Config, section: string, params: Section, keys: set<string>, key: string, file: string)
    requires key in params
    ensures SectionDiagnostics(actual, section, params, keys + {key}, file)
         == SectionDiagnostics(actual, section, params, keys, file) + ToSet(Verdict(actual, section, key, params[key], file))
  {
  }

  lemma ConfigStep(actual: Config, expected: Config, sections: set<string>, section: string, file: string)
    requires section in expected
    ensures ConfigDiagnostics(actual, expected, sections + {section}, file)
         == ConfigDiagnostics(actual, expected, sections, file)
            + SectionDiagnostics(actual, section, expected[section], expected[section].Keys, file)
  {
  }

  // --------------------------------------------------------- validate_config

  /**
   * `validate_config`: walks every section of `expected` (in an order the
   * model leaves open) and, through `ValidateSection`, every key in it.
   */
  method ValidateConfig(actual: Config, expected: Config, path: string) returns (output: set<Diagnostic>, flag: int)
    ensures output == Report(actual, expected, path)
    ensures flag == (if output == {} then 0 else 1)
  {
    output := {};
    flag := 0;
    var filename := FileName(path);
    var todo := expected.Keys;
    ghost var done: set<string> := {};
    while todo != {}
      invariant todo <= expected.Keys && done == expected.Keys - todo
      invariant output == ConfigDiagnostics(actual, expected, done, filename)
      invariant flag == (if output == {} then 0 else 1)
      decreases todo
    {
      var section :| section in todo;
      output, flag := ValidateSection(actual, section, expected[section], filename, output, flag);
      ConfigStep(actual, expected, done, section, filename);
      todo := todo - {section};
      done := done + {section};
    }
  }

  /**
   * The inner loop of `validate_config` over the keys of one expected
   * section: each triple's diagnostic, if any, is added to the output and
   * the flag is raised with it.
   */
  method ValidateSection(actual: Config, section: string, parameters: Section, filename: string,
                         output0: set<Diagnostic>, flag0: int)
    returns (output: set<Diagnostic>, flag: int)
    requires flag0 == (if output0 == {} then 0 else 1)
    ensures output == output0 + SectionDiagnostics(actual, section, parameters, parameters.Keys, filename)
    ensures flag == (if output == {} then 0 else 1)
  {
    output, flag := output0, flag0;
    var keys := parameters.Keys;
    ghost var seen: set<string> := {};
    while keys != {}
      invariant keys <= parameters.Keys && seen == parameters.Keys - keys
      invariant output == output0 + SectionDiagnostics(actual, section, parameters, seen, filename)
      invariant flag == (if output == {} then 0 else 1)
      decreases keys
    {
      var key :| key in keys;
      var diagnostic := Verdict(actual, section, key, parameters[key], filename);
      if diagnostic.Some? {
        output := output + {diagnostic.value};
        flag := 1;
      }
      SectionStep(actual, section, parameters, seen, key, filename);
      keys := keys - {key};
      seen := seen + {key};
    }
  }
}
