/**
 * Concrete runs of the validator on one-key expectations, worked out from
 * the properties of the report.
 */
module CheckCfgScenarios {
  import opened Wrappers
  import opened PyStr
  import opened CheckCfgParams
  import opened CheckCfgProperties

  const Path := "configs/app.cfg"

  /** A configuration holding only the key `port` of section `server`. */
  function Server(value: string): Config {
    map["server" := map["port" := value]]
  }

  lemma PathFileName()
    ensures FileName(Path) == "app.cfg"
  {
    assert Path == "configs" + "/" + "app.cfg";
    FileNameOfPath("configs", "app.cfg");
  }

  lemma RangeTokenUpper(token: string, rest: string)
    requires token == "RANGE" || token == "range"
    ensures StartsWith(Upper(token + rest), "RANGE")
  {
    var u := Upper(token + rest);
    forall i | 0 <= i < 5 ensures u[i] == "RANGE"[i] {
      assert (token + rest)[i] == token[i];
    }
    assert u[..5] == "RANGE";
  }

  /** A `RANGE[lo,hi]` directive, in either spelling of the token, is dispatched as a range check. */
  lemma RangeDirectiveClassified(token: string, lo: int, hi: int)
    requires token == "RANGE" || token == "range"
    ensures Classify(RangeDirective(token, lo, hi)) == RangeCheck(Some((lo, hi)))
  {
    RangeTokenUpper(token, Bounds(lo, hi));
    ReadRangeWellFormed(token, lo, hi);
  }

  lemma RangeVerdict(actual: Config, section: string, key: string, directive: string, lo: int, hi: int, n: int, file: string)
    requires Classify(directive) == RangeCheck(Some((lo, hi)))
    requires section in actual && key in actual[section] && ParseInt(actual[section][key]) == Some(n)
    ensures Verdict(actual, section, key, directive, file)
         == if lo <= n <= hi then None else Some(OutOfRange(key, section, file, (lo, hi)))
  {
  }

  /** One key under `RANGE[lo,hi]`: an integer value is reported exactly when it is outside. */
  lemma RangeScenario(section: string, key: string, token: string, lo: int, hi: int, n: int, path: string)
    requires token == "RANGE" || token == "range"
    ensures Report(map[section := map[key := IntToString(n)]], map[section := map[key := RangeDirective(token, lo, hi)]], path)
         == if lo <= n <= hi then {} else {OutOfRange(key, section, FileName(path), (lo, hi))}
  {
    var actual := map[section := map[key := IntToString(n)]];
    var directive := RangeDirective(token, lo, hi);
    RangeDirectiveClassified(token, lo, hi);
    ParseIntRoundTrip(n);
    RangeVerdict(actual, section, key, directive, lo, hi, n, FileName(path));
    SingleEntryReport(actual, section, key, directive, path);
  }

  lemma NotIntegerVerdict(actual: Config, section: string, key: string, directive: string, file: string)
    requires Classify(directive).RangeCheck?
    requires section in actual && key in actual[section] && ParseInt(actual[section][key]) == None
    ensures Verdict(actual, section, key, directive, file) == Some(NotInteger(key, section, file))
  {
  }

  /** One key under `RANGE[lo,hi]` whose value is not an integer: one ERROR message. */
  lemma RangeNotIntegerScenario(section: string, key: string, token: string, lo: int, hi: int, value: string, path: string)
    requires token == "RANGE" || token == "range"
    requires ParseInt(value) == None
    ensures Report(map[section := map[key := value]], map[section := map[key := RangeDirective(token, lo, hi)]], path)
         == {NotInteger(key, section, FileName(path))}
  {
    var actual := map[section := map[key := value]];
    var directive := RangeDirective(token, lo, hi);
    RangeDirectiveClassified(token, lo, hi);
    NotIntegerVerdict(actual, section, key, directive, FileName(path));
    SingleEntryReport(actual, section, key, directive, path);
  }

  /** `RANGE[0,10]` accepts 5 and rejects 11 with a COUNT message. */
  lemma ZeroToTen()
    ensures Report(Server(IntToString(5)), Server(RangeDirective("RANGE", 0, 10)), Path) == {}
    ensures Report(Server(IntToString(11)), Server(RangeDirective("RANGE", 0, 10)), Path)
         == {OutOfRange("port", "server", "app.cfg", (0, 10))}
  {
    PathFileName();
    RangeScenario("server", "port", "RANGE", 0, 10, 5, Path);
    RangeScenario("server", "port", "RANGE", 0, 10, 11, Path);
  }

  /** `f"{x}"` of the pair `(0, 10)`. */
  lemma PairZeroTen()
    ensures PairToString((0, 10)) == "(0, 10)"
  {
    assert IntToString(0) == "0";
    assert IntToString(10) == "10" by {
      assert NatToString(10) == NatToString(1) + [DigitChar(0)];
    }
  }

  // The COUNT message below, spelled out in three pieces and joined. Each
  // equation between string literals is a lemma of its own so that the proof
  // of the whole message only ever joins two known strings at a time.

  lemma CountPieceOne()
    ensures "COUNT" + ": " + "Value of '" + "port" == "COUNT: Value of 'port"
  {
  }

  lemma CountPieceTwo()
    ensures "' in [" + "server" + "] of " + "app.cfg" == "' in [server] of app.cfg"
  {
  }

  lemma CountPieceThree()
    ensures " not in range " + "(0, 10)" == " not in range (0, 10)"
  {
  }

  lemma CountPiecesJoinedHead()
    ensures "COUNT: Value of 'port" + "' in [server] of app.cfg" == "COUNT: Value of 'port' in [server] of app.cfg"
  {
  }

  lemma CountPiecesJoined()
    ensures "COUNT: Value of 'port' in [server] of app.cfg" + " not in range (0, 10)"
         == "COUNT: Value of 'port' in [server] of app.cfg not in range (0, 10)"
  {
  }

  /** Associativity of `+`, regrouping `Render`'s pieces into the three pieces above. */
  lemma Regroup(h: string, a: string, b: string, c: string, d: string, e: string, f: string, g: string, i: string)
    ensures h + (a + b + c + d + e + f + g + i) == (h + a + b) + (c + d + e + f) + (g + i)
  {
  }

  /** The text the validator renders for that COUNT diagnostic. */
  lemma ZeroToTenRendered()
    ensures Render(OutOfRange("port", "server", "app.cfg", (0, 10)))
         == "COUNT: Value of 'port' in [server] of app.cfg not in range (0, 10)"
  {
    PairZeroTen();
    CountPieceOne();
    CountPieceTwo();
    CountPieceThree();
    Regroup("COUNT" + ": ", "Value of '", "port", "' in [", "server", "] of ", "app.cfg", " not in range ", "(0, 10)");
    CountPiecesJoinedHead();
    CountPiecesJoined();
  }

  /** The output set of strings of the run that rejects 11 under `RANGE[0,10]`. */
  lemma ZeroToTenMessage()
    ensures Messages(Report(Server(IntToString(11)), Server(RangeDirective("RANGE", 0, 10)), Path))
         == {"COUNT: Value of 'port' in [server] of app.cfg not in range (0, 10)"}
  {
    ZeroToTen();
    MessagesSingleton(OutOfRange("port", "server", "app.cfg", (0, 10)));
    ZeroToTenRendered();
  }

  /** `RANGE[0,10]` rejects `abc` with an ERROR message. */
  lemma ZeroToTenNotInteger()
    ensures Report(Server("abc"), Server(RangeDirective("RANGE", 0, 10)), Path)
         == {NotInteger("port", "server", "app.cfg")}
  {
    PathFileName();
    ParseIntRejects("abc");
    RangeNotIntegerScenario("server", "port", "RANGE", 0, 10, "abc", Path);
  }

  /** `port=RANGE[1,65535]` with `port=70000` reports COUNT, so the flag is raised. */
  lemma PortOutOfRange()
    ensures Report(Server(IntToString(70000)), Server(RangeDirective("RANGE", 1, 65535)), Path)
         == {OutOfRange("port", "server", "app.cfg", (1, 65535))}
  {
    PathFileName();
    RangeScenario("server", "port", "RANGE", 1, 65535, 70000, Path);
  }

  /** One forbidden key: a NOT_BE message exactly when the key is there. */
  lemma ForbiddenKeyScenario(actual: Config, section: string, key: string, value: string, path: string)
    requires Upper(value) == "SHOULD_NOT_BE_PRESENT"
    ensures Report(actual, map[section := map[key := value]], path)
         == if section in actual && key in actual[section] then {Forbidden(key, section, FileName(path))} else {}
  {
    SingleEntryReport(actual, section, key, value, path);
  }

  /** One required key in a section that is absent: the one section message, and nothing else. */
  lemma RequiredSectionAbsent(actual: Config, section: string, key: string, value: string, path: string)
    requires Upper(value) == "MUST_EXIST" && section !in actual
    ensures Report(actual, map[section := map[key := value]], path) == {SectionMissing(section, FileName(path))}
  {
    VerdictSectionAbsent(actual, section, key, value, FileName(path));
    SingleEntryReport(actual, section, key, value, path);
  }
}
