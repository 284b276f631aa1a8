/** `parse`: turns the matches of the listing pattern into shadowsocks configuration records. */
module Parser {
  import opened Values

  /** One match as `std::smatch` presents it: group 0 is the whole match, groups 1 to 4 are the
      server, the port, the password and the encryption method. */
  datatype Match = Match(whole: string, server: string, port: string, password: string, cipher: string)

  /** What the regex engine delivered: the matches in scan order, and whether it threw
      `std::regex_error` after the last of them (or before the first). */
  datatype MatchRun = MatchRun(matches: seq<Match>, regexError: bool)

  /** The outcome of `parse`: the array it returns, or the `std::out_of_range` that `std::stoi`
      throws on a port above INT_MAX and that nothing catches. */
  datatype Parsed = Configs(records: seq<Json>) | PortOutOfRange

  /** INT_MAX of a 32-bit `int`, the result type of `std::stoi`. */
  const IntMax: nat := 0x7fff_ffff

  predicate IsDigits(s: string) {
    forall i :: 0 <= i < |s| ==> '0' <= s[i] <= '9'
  }

  /** What the pattern guarantees of every match: the port group matches `[0-9]+`. */
  predicate PortsAreDigits(ms: seq<Match>) {
    forall i :: 0 <= i < |ms| ==> ms[i].port != [] && IsDigits(ms[i].port)
  }

  function Pow10(n: nat): (r: nat)
    ensures r >= 1
  {
    if n == 0 then 1 else 10 * Pow10(n - 1)
  }

  function DigitValue(c: char): (r: nat)
    ensures r <= 9
  {
    if '0' <= c <= '9' then c as int - '0' as int else 0
  }

  /** Reads the digits of `s` left to right onto `acc`, as `strtol` does for `std::stoi`. */
  function DecimalFrom(s: string, acc: nat): nat {
    if s == [] then acc else DecimalFrom(s[1..], acc * 10 + DigitValue(s[0]))
  }

  /** The base-10 value of a digit string, as `std::stoi` reads it. */
  function DecimalValue(s: string): nat {
    DecimalFrom(s, 0)
  }

  /** `std::stoi` on a digit string: its value, or None where it throws `std::out_of_range`.
      Only digit strings are modelled: the pattern's `[0-9]+` group delivers nothing else, so the
      `std::invalid_argument` of an empty or non-numeric argument cannot arise. */
  function Stoi(digits: string): Option<int> {
    var v := DecimalValue(digits);
    if v <= IntMax then Some(v) else None
  }

  predicate PortsFit(ms: seq<Match>) {
    forall i :: 0 <= i < |ms| ==> Stoi(ms[i].port).Some?
  }

  /** The record built from one match. */
  function RecordOf(m: Match): Json {
    Obj([Member("server", Str(m.server)),
         Member("server_port", Int(DecimalValue(m.port))),
         Member("password", Str(m.password)),
         Member("method", Str(m.cipher)),
         Member("auth", Bool(false))])
  }

  /** Group 1 is the key `server` (up to its first NUL), the decimal value of group 2 `server_port`, group 3
      `password`, group 4 `method` unchanged, and `auth` is false. */
  lemma RecordFields(m: Match)
    ensures Lookup(RecordOf(m).members, "server") == Some(Str(m.server))
    ensures Readable(RecordOf(m)) && Server(RecordOf(m)) == Some(CString(m.server))
    ensures Lookup(RecordOf(m).members, "server_port") == Some(Int(DecimalValue(m.port)))
    ensures Lookup(RecordOf(m).members, "password") == Some(Str(m.password))
    ensures Lookup(RecordOf(m).members, "method") == Some(Str(m.cipher))
    ensures Lookup(RecordOf(m).members, "auth") == Some(Bool(false))
  {
    var fields := RecordOf(m).members;
    assert fields[4..][1..] == [];
    assert Lookup(fields[4..], "auth") == Some(Bool(false));
    assert fields[3..][1..] == fields[4..];
    assert Lookup(fields[3..], "auth") == Some(Bool(false));
    assert Lookup(fields[3..], "method") == Some(Str(m.cipher));
    assert fields[2..][1..] == fields[3..];
    assert Lookup(fields[2..], "auth") == Some(Bool(false));
    assert Lookup(fields[2..], "method") == Some(Str(m.cipher));
    assert Lookup(fields[2..], "password") == Some(Str(m.password));
    assert fields[1..][1..] == fields[2..];
    assert Lookup(fields[1..], "auth") == Some(Bool(false));
    assert Lookup(fields[1..], "method") == Some(Str(m.cipher));
    assert Lookup(fields[1..], "password") == Some(Str(m.password));
    assert Lookup(fields[1..], "server_port") == Some(Int(DecimalValue(m.port)));
  }

  /** The records a match contributes: none when its password is empty (the early `continue`),
      else its own record. */
  function RecordsOf(m: Match): seq<Json> {
    if m.password == "" then [] else [RecordOf(m)]
  }

  /** The records of the matches whose password group is not empty, in match order. */
  function Kept(ms: seq<Match>): seq<Json> {
    if ms == [] then [] else RecordsOf(ms[0]) + Kept(ms[1..])
  }

  /** What `parse` yields for a run of matches whose ports are digit strings, as the pattern
      guarantees (`PortsAreDigits`); on other ports `Stoi` is not `std::stoi`. */
  function ParseSpec(run: MatchRun): Parsed {
    if PortsFit(run.matches) then Configs(Kept(run.matches)) else PortOutOfRange
  }

  /** The `std::regex_error` handler only logs: whether the engine threw after the matches it
      delivered does not change the outcome. */
  lemma RegexErrorIgnored(ms: seq<Match>)
    ensures ParseSpec(MatchRun(ms, true)) == ParseSpec(MatchRun(ms, false))
  {
  }

  /** `parse`: one record per match with a non-empty password, pushed in match order. A
      `regex_error` is caught after the loop, so the records pushed before it are returned. */
  method Parse(run: MatchRun) returns (result: Parsed)
    requires PortsAreDigits(run.matches)
    ensures result == ParseSpec(run)
    ensures run.matches == [] ==> result == Configs([])
    ensures result.PortOutOfRange? <==> exists i :: 0 <= i < |run.matches| && Stoi(run.matches[i].port).None?
  {
    var ms := run.matches;
    var configs: seq<Json> := [];
    for i := 0 to |ms|
      invariant forall j :: 0 <= j < i ==> Stoi(ms[j].port).Some?
      invariant configs == Kept(ms[..i])
    {
      var m := ms[i];
      KeptStep(ms, i);
      var server := m.server;
      var port := Stoi(m.port);
      if port.None? {
        assert !PortsFit(ms);
        return PortOutOfRange;
      }
      var password := m.password;
      if password == [] {
        continue;
      }
      var conf := Obj([Member("server", Str(server)),
                       Member("server_port", Int(port.value)),
                       Member("password", Str(password)),
                       Member("method", Str(m.cipher)),
                       Member("auth", Bool(false))]);
      assert [conf] == RecordsOf(m);
      configs := configs + [conf];
    }
    assert ms[..|ms|] == ms;
    result := Configs(configs);
  }

  /** One step of the loop: the records of the first i + 1 matches are those of the first i,
      then those of match i. */
  lemma KeptStep(ms: seq<Match>, i: nat)
    requires i < |ms|
    ensures Kept(ms[..i + 1]) == Kept(ms[..i]) + RecordsOf(ms[i])
  {
    assert ms[..i + 1] == ms[..i] + [ms[i]];
    KeptAppend(ms[..i], [ms[i]]);
    assert [ms[i]][1..] == [];
  }

  /** Records come out in match order: the records of a concatenation are the concatenation. */
  lemma {:induction false} KeptAppend(a: seq<Match>, b: seq<Match>)
    ensures Kept(a + b) == Kept(a) + Kept(b)
  {
    if a == [] {
      assert a + b == b;
    } else {
      assert (a + b)[0] == a[0] && (a + b)[1..] == a[1..] + b;
      KeptAppend(a[1..], b);
    }
  }

  /** Match j contributes no record when its password is empty and exactly its own record
      otherwise, between the records of the matches before it and those after it. */
  lemma KeptAt(ms: seq<Match>, j: nat)
    requires j < |ms|
    ensures Kept(ms) == Kept(ms[..j]) + RecordsOf(ms[j]) + Kept(ms[j + 1..])
  {
    var front, back := ms[..j + 1], ms[j + 1..];
    assert ms == front + back;
    KeptAppend(front, back);
    KeptStep(ms, j);
  }

  /** Every record comes from a match whose password is not empty. */
  lemma {:induction false} KeptFromValidMatches(ms: seq<Match>)
    ensures forall k :: 0 <= k < |Kept(ms)| ==>
              exists j :: 0 <= j < |ms| && ms[j].password != "" && Kept(ms)[k] == RecordOf(ms[j])
  {
    if ms == [] {
      assert Kept(ms) == [];
    } else {
      var rest := ms[1..];
      KeptFromValidMatches(rest);
      var head := RecordsOf(ms[0]);
      forall k | 0 <= k < |Kept(ms)|
        ensures exists j :: 0 <= j < |ms| && ms[j].password != "" && Kept(ms)[k] == RecordOf(ms[j])
      {
        if k < |head| {
          assert ms[0].password != "" && Kept(ms)[k] == RecordOf(ms[0]);
        } else {
          var j :| 0 <= j < |rest| && rest[j].password != "" && Kept(rest)[k - |head|] == RecordOf(rest[j]);
          assert ms[j + 1] == rest[j] && Kept(ms)[k] == Kept(rest)[k - |head|];
        }
      }
    }
  }

  /** Each match yields at most one record. */
  lemma {:induction false} KeptAtMostOnePerMatch(ms: seq<Match>)
    ensures |Kept(ms)| <= |ms|
  {
    if ms != [] {
      KeptAtMostOnePerMatch(ms[1..]);
    }
  }

  /** With every password present, each match yields exactly its own record, position for position. */
  lemma {:induction false} KeptAllPresent(ms: seq<Match>)
    requires forall j :: 0 <= j < |ms| ==> ms[j].password != ""
    ensures |Kept(ms)| == |ms|
    ensures forall j :: 0 <= j < |ms| ==> Kept(ms)[j] == RecordOf(ms[j])
  {
    if ms != [] {
      KeptAllPresent(ms[1..]);
      assert forall j :: 1 <= j < |ms| ==> ms[j] == ms[1..][j - 1];
    }
  }

  /** The value is positional: appending a digit multiplies the value so far by ten and adds
      the digit. */
  lemma {:induction false} DecimalAppend(s: string, c: char, acc: nat)
    ensures DecimalFrom(s + [c], acc) == DecimalFrom(s, acc) * 10 + DigitValue(c)
  {
    if s != [] {
      assert (s + [c])[0] == s[0] && (s + [c])[1..] == s[1..] + [c];
      DecimalAppend(s[1..], c, acc * 10 + DigitValue(s[0]));
    }
  }

  /** `std::stoi` reads its argument in base 10, not as octal: leading zeros do not change the port. */
  lemma LeadingZeroIgnored(s: string)
    ensures DecimalValue(['0'] + s) == DecimalValue(s)
  {
    assert (['0'] + s)[1..] == s;
  }

  /** A value read onto `acc` from n more digits stays below (acc + 1) * 10^n. */
  lemma {:induction false} DecimalBound(s: string, acc: nat)
    ensures DecimalFrom(s, acc) < (acc + 1) * Pow10(|s|)
  {
    if s != [] {
      var next := acc * 10 + DigitValue(s[0]);
      var p := Pow10(|s| - 1);
      calc {
        DecimalFrom(s, acc);
        DecimalFrom(s[1..], next);
      < { DecimalBound(s[1..], next); }
        (next + 1) * p;
      <= { MulMonotone(next + 1, (acc + 1) * 10, p); }
        (acc + 1) * 10 * p;
      == { MulAssociates(acc + 1, 10, p); }
        (acc + 1) * (10 * p);
        (acc + 1) * Pow10(|s|);
      }
    }
  }

  lemma MulMonotone(a: nat, b: nat, p: nat)
    requires a <= b
    ensures a * p <= b * p
  {
  }

  lemma MulAssociates(a: nat, b: nat, c: nat)
    ensures a * b * c == a * (b * c)
  {
  }

  lemma {:induction false} Pow10Monotone(a: nat, b: nat)
    requires a <= b
    ensures Pow10(a) <= Pow10(b)
  {
    if a < b {
      Pow10Monotone(a, b - 1);
    }
  }

  /** A port of at most nine digits never makes `std::stoi` throw. */
  lemma ShortPortFits(s: string)
    requires |s| <= 9
    ensures Stoi(s) == Some(DecimalValue(s))
  {
    DecimalBound(s, 0);
    Pow10Monotone(|s|, 9);
    assert Pow10(9) == 1000000000;
  }

  /** A page whose ports all have at most nine digits always parses to an array. */
  lemma ParseShortPorts(run: MatchRun)
    requires forall i :: 0 <= i < |run.matches| ==> |run.matches[i].port| <= 9
    ensures ParseSpec(run) == Configs(Kept(run.matches))
  {
    forall i | 0 <= i < |run.matches|
      ensures Stoi(run.matches[i].port).Some?
    {
      ShortPortFits(run.matches[i].port);
    }
  }
}
