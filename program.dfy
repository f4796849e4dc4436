/** Program.cs: turning the command line into the featured-process
    patterns, and the hand-written JSON serialiser that answers each HTTP
    request with the latest snapshot. The listener, the analyzer thread and
    the response writing are outside the model. */
module Program {
  import opened Wrappers
  import opened Strings
  import opened ArrayExtension
  import opened ProcessRecords

  // ---------------------------------------------------------------------
  // Command line

  /** The patterns `Main` derives from `args`, or `None` when it prints its
      usage line and returns. */
  function PatternsOf(args: seq<string>): Option<seq<string>> {
    if |args| < 2 then None else Some(Split(Join(" ", args[1..]), ','))
  }

  /** The pattern part of `Main`: fewer than two arguments stop the program
      before anything is parsed; otherwise the arguments after the port
      (`args.Slice(1)`) are joined with spaces and split on commas. */
  method ParseCommandLine(args: array<string>) returns (patterns: Option<seq<string>>)
    requires args.Length <= IntMax as int
    ensures patterns == PatternsOf(args[..])
  {
    if args.Length < 2 {
      return None;
    }
    var rest := Slice(args, 1);
    assert rest[..] == args[..][1..];
    patterns := Some(Split(Join(" ", rest[..]), ','));
  }

  /** Patterns are neither trimmed nor emptied: there is one more of them
      than there are commas, none contains a comma, and joining them with
      commas gives back the space-joined arguments. */
  lemma PatternsShape(args: seq<string>)
    requires |args| >= 2
    ensures var ps, line := PatternsOf(args).value, Join(" ", args[1..]);
      && |ps| == Count(line, ',') + 1
      && (forall i :: 0 <= i < |ps| ==> ',' !in ps[i])
      && Join([','], ps) == line
  {
    var line := Join(" ", args[1..]);
    SplitLength(line, ',');
    JoinSplit(line, ',');
  }

  /** `TaskStatsServer 8080 a, b` selects the patterns "a" and " b". */
  lemma PatternsExample()
    ensures PatternsOf(["8080", "a,", "b"]) == Some(["a", " b"])
  {
    var args: seq<string> := ["8080", "a,", "b"];
    var tail: seq<string> := ["a,", "b"];
    assert args[1..] == tail;
    assert tail[1..] == ["b"];
    assert Join(" ", tail[1..]) == "b";
    var joined := Join(" ", tail);
    assert joined == "a," + " " + "b";
    assert joined == "a" + ", b";
    assert ',' !in "a";
    SplitPrefix("a", ", b", ',');
    assert ", b"[1..] == " b";
    SplitOfPlain(" b", ',');
    assert Split(joined, ',') == ["a"] + [" b"];
    var expected: seq<string> := ["a", " b"];
    assert ["a"] + [" b"] == expected;
    assert PatternsOf(args) == Some(expected);
  }

  // ---------------------------------------------------------------------
  // JSON

  /** `"key":"value"`, both copied verbatim (nothing is escaped). */
  function PairJson(key: string, value: string): (s: string)
    ensures |s| == |key| + |value| + 5
    ensures s[0] == '"' && s[|s| - 1] == '"'
    ensures s[1..|key| + 1] == key && s[|key| + 1..|key| + 4] == "\":\""
    ensures s[|key| + 4..|key| + 4 + |value|] == value
  {
    "\"" + key + "\":\"" + value + "\""
  }

  /** In a pair whose key has no quote, the first quote after the opening
      one is the one that closes the key. */
  lemma PairJsonKeyEnd(key: string, value: string)
    requires '"' !in key
    ensures PairJson(key, value)[|key| + 1] == '"'
    ensures forall j :: 1 <= j <= |key| ==> PairJson(key, value)[j] != '"'
  {
    var s := PairJson(key, value);
    forall j | 1 <= j <= |key| ensures s[j] != '"' {
      assert s[j] == s[1..|key| + 1][j - 1];
    }
  }

  /** Without escaping, a pair still determines its key and value as long as
      the key contains no quote. */
  lemma PairJsonInjective(k1: string, v1: string, k2: string, v2: string)
    requires '"' !in k1 && '"' !in k2
    requires PairJson(k1, v1) == PairJson(k2, v2)
    ensures k1 == k2 && v1 == v2
  {
    PairJsonKeyEnd(k1, v1);
    PairJsonKeyEnd(k2, v2);
    assert |k1| == |k2|;
  }

  /** The pair fragments of a record, in dictionary order. */
  function PairJsons(r: Record): (ps: seq<string>)
    ensures |ps| == |r|
    ensures forall i :: 0 <= i < |r| ==> ps[i] == PairJson(r[i].0, r[i].1)
  {
    if r == [] then [] else PairJsons(r[..|r| - 1]) + [PairJson(r[|r| - 1].0, r[|r| - 1].1)]
  }

  /** A record as a JSON object: its pairs joined by commas inside braces. */
  function RecordJson(r: Record): (s: string)
    ensures |s| >= 2 && s[0] == '{' && s[|s| - 1] == '}'
  {
    "{" + Join(",", PairJsons(r)) + "}"
  }

  /** The object fragments of a snapshot, in list order. */
  function RecordJsons(rs: seq<Record>): (os: seq<string>)
    ensures |os| == |rs|
    ensures forall i :: 0 <= i < |rs| ==> os[i] == RecordJson(rs[i])
  {
    if rs == [] then [] else RecordJsons(rs[..|rs| - 1]) + [RecordJson(rs[|rs| - 1])]
  }

  lemma PairJsonsStep(r: Record, j: nat)
    requires j < |r|
    ensures PairJsons(r[..j + 1]) == PairJsons(r[..j]) + [PairJson(r[j].0, r[j].1)]
  {
    assert r[..j + 1][..j] == r[..j];
  }

  lemma RecordJsonsStep(rs: seq<Record>, i: nat)
    requires i < |rs|
    ensures RecordJsons(rs[..i + 1]) == RecordJsons(rs[..i]) + [RecordJson(rs[i])]
  {
    assert rs[..i + 1][..i] == rs[..i];
  }

  /** A snapshot as a JSON array: its objects joined by commas in brackets. */
  function SnapshotJson(rs: seq<Record>): string {
    "[" + Join(",", RecordJsons(rs)) + "]"
  }

  /** An empty snapshot is `[]` and a record without keys is `{}`. */
  lemma EmptyJson()
    ensures SnapshotJson([]) == "[]"
    ensures RecordJson([]) == "{}"
  {
  }

  /** Every fragment followed by one comma, as the serialiser's `+=` builds it. */
  function Terminated(frags: seq<string>): string {
    if frags == [] then [] else Terminated(frags[..|frags| - 1]) + frags[|frags| - 1] + ","
  }

  /** A fragment that is non-empty and does not end in a comma. */
  predicate Closed(f: string) {
    f != [] && f[|f| - 1] != ','
  }

  /** The comma-terminated fragments are the comma-joined ones plus one comma. */
  lemma {:induction false} TerminatedIsJoin(frags: seq<string>)
    requires frags != []
    ensures Terminated(frags) == Join(",", frags) + ","
  {
    var n := |frags| - 1;
    if n == 0 {
      assert Terminated(frags[..0]) == [];
    } else {
      var init := frags[..n];
      assert init + [frags[n]] == frags;
      JoinAppend(",", init, frags[n]);
      TerminatedIsJoin(init);
    }
  }

  /** A join ends the way its last fragment ends. */
  lemma JoinClosed(frags: seq<string>)
    requires frags != [] && Closed(frags[|frags| - 1])
    ensures Closed(Join(",", frags))
  {
    var n := |frags| - 1;
    if n > 0 {
      assert frags[..n] + [frags[n]] == frags;
      JoinAppend(",", frags[..n], frags[n]);
    }
  }

  /** `TrimEnd(',')` takes off exactly the one separator after the last
      fragment, because every fragment, and the opening bracket, ends in
      something other than a comma. */
  lemma TrimTerminated(open: string, frags: seq<string>)
    requires Closed(open)
    requires frags != [] ==> Closed(frags[|frags| - 1])
    ensures TrimEnd(open + Terminated(frags), ',') == open + Join(",", frags)
  {
    if frags == [] {
      assert open + Terminated(frags) == open;
      TrimEndOne(open, ',');
    } else {
      TerminatedIsJoin(frags);
      JoinClosed(frags);
      var body := open + Join(",", frags);
      assert open + Terminated(frags) == body + [','];
      TrimEndOne(body, ',');
    }
  }

  /** One more fragment adds itself and a comma. */
  lemma TerminatedStep(open: string, frags: seq<string>, f: string)
    ensures open + Terminated(frags + [f]) == open + Terminated(frags) + f + ","
  {
    assert (frags + [f])[..|frags|] == frags;
  }

  /** The inner loop of the serialiser: one record as `{`, its pairs each
      followed by a comma, trailing commas trimmed, then `}`. */
  method SerializeRecord(process: Record) returns (processJson: string)
    ensures processJson == RecordJson(process)
  {
    processJson := "{";
    var j := 0;
    while j < |process|
      invariant 0 <= j <= |process|
      invariant processJson == "{" + Terminated(PairJsons(process[..j]))
    {
      var (key, value) := process[j];
      PairJsonsStep(process, j);
      TerminatedStep("{", PairJsons(process[..j]), PairJson(key, value));
      processJson := processJson + PairJson(key, value) + ",";
      j := j + 1;
    }
    assert process[..j] == process;
    TrimTerminated("{", PairJsons(process));
    processJson := TrimEnd(processJson, ',') + "}";
  }

  /** The serialiser of `HandleIncomingConnections`: `[`, then each record
      followed by a comma, trailing commas trimmed, then `]`. A null
      snapshot serialises as an empty one. */
  method SerializeSnapshot(latestProcesses: Option<seq<Record>>) returns (jsonString: string)
    ensures jsonString == SnapshotJson(latestProcesses.GetOr([]))
  {
    var processes := latestProcesses.GetOr([]);
    jsonString := "[";
    var i := 0;
    while i < |processes|
      invariant 0 <= i <= |processes|
      invariant jsonString == "[" + Terminated(RecordJsons(processes[..i]))
    {
      var processJson := SerializeRecord(processes[i]);
      RecordJsonsStep(processes, i);
      TerminatedStep("[", RecordJsons(processes[..i]), processJson);
      jsonString := jsonString + processJson + ",";
      i := i + 1;
    }
    assert processes[..i] == processes;
    TrimTerminated("[", RecordJsons(processes));
    jsonString := TrimEnd(jsonString, ',') + "]";
  }
}
