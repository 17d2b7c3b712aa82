/**
 * The objects the objectstore tool test writes into its replicated pool, and
 * the record `db` of what it expects to find in each
 * (tasks/ceph_objectstore_tool.py:31-138): object names, data file contents,
 * expected extended attributes and omap entries, the setup error count, and the
 * two small text helpers `get_lines` and `get_pool_id`.
 */
module ObjectstoreData {
  import opened Results
  import opened Text

  /** The pool the test creates and the prefix of every object name in it. */
  const RepPool: string := "rep_pool"
  const RepName: string := "REPobject"

  /** Objects created when the configuration names no count. */
  const DefaultObjectCount: nat := 10

  /** Lines in every object's data file. */
  const DataLineCount: nat := 10000

  // ---------------------------------------------------------------------------
  // Object names and data
  // ---------------------------------------------------------------------------

  /** The i-th object, `REPobject{i}`; the test creates objects 1 to N. */
  function ObjectName(i: nat): string
  {
    RepName + NatToString(i)
  }

  /** An object name is `REPobject` followed by the decimal index, with no separator in it. */
  lemma ObjectNameShape(i: nat)
    ensures RepName <= ObjectName(i) && ObjectName(i)[|RepName|..] == NatToString(i)
    ensures NoSpace(ObjectName(i))
  {
    DigitsHaveNoSpace(NatToString(i));
  }

  /** Different objects get different names. */
  lemma ObjectNamesDistinct(i: nat, j: nat)
    requires i != j
    ensures ObjectName(i) != ObjectName(j)
  {
    DigitsValueOfNatToString(i);
    DigitsValueOfNatToString(j);
    assert ObjectName(i)[|RepName|..] == NatToString(i);
    assert ObjectName(j)[|RepName|..] == NatToString(j);
  }

  /** The names of objects 1 to n, in creation order. */
  function ObjectNames(n: nat): (names: seq<string>)
    ensures |names| == n
    ensures forall k :: 0 <= k < n ==> names[k] == ObjectName(k + 1)
  {
    seq(n, k requires 0 <= k < n => ObjectName(k + 1))
  }

  /** The text of every line of an object's data file. */
  function LineText(name: string): string
  {
    "This is the replicated data for " + name
  }

  /** An object's data file: its line, newline-terminated, `count` times. */
  function ObjectData(name: string, count: nat): (data: string)
    ensures |data| == count * (|LineText(name)| + 1)
  {
    Repeat(LineText(name) + "\n", count)
  }

  /**
   * `cod_setup_remote_data`'s construction of the file contents, one line
   * appended per iteration.
   */
  method RemoteData(name: string, count: nat) returns (data: string)
    ensures data == ObjectData(name, count)
  {
    var line := LineText(name) + "\n";
    data := "";
    var k := 0;
    while k < count
      invariant 0 <= k <= count
      invariant data == Repeat(line, k)
    {
      RepeatSnoc(line, k);
      data := data + line;
      k := k + 1;
    }
  }

  /** Object names hold no newline, so neither does a line of their data. */
  lemma LineTextOfObject(i: nat)
    ensures '\n' !in LineText(ObjectName(i))
  {
    var name := ObjectName(i);
    assert '\n' !in name by {
      ObjectNameShape(i);
    }
    assert '\n' !in "This is the replicated data for ";
  }

  /**
   * An object's data file splits on newlines into exactly `count` copies of its
   * line, followed by the empty piece after the final newline.
   */
  lemma ObjectDataLines(i: nat, count: nat)
    ensures Split(ObjectData(ObjectName(i), count), '\n') == Copies(LineText(ObjectName(i)), count) + [""]
  {
    var text := LineText(ObjectName(i));
    LineTextOfObject(i);
    RepeatIsTerminated(text, '\n', count);
    assert ObjectData(ObjectName(i), count) == Terminated(Copies(text, count), '\n') + "";
    SplitTerminated(Copies(text, count), "", '\n');
  }

  // ---------------------------------------------------------------------------
  // Expected metadata
  // ---------------------------------------------------------------------------

  /** The tagged string `{prefix}{i}-{k}` the setup uses for attribute and omap keys and values. */
  function Tagged(prefix: string, i: nat, k: nat): string
  {
    prefix + NatToString(i) + "-" + NatToString(k)
  }

  /** Tags for different k differ. */
  lemma TaggedDistinct(prefix: string, i: nat, k1: nat, k2: nat)
    requires k1 != k2
    ensures Tagged(prefix, i, k1) != Tagged(prefix, i, k2)
  {
    DigitsValueOfNatToString(k1);
    DigitsValueOfNatToString(k2);
    var head := prefix + NatToString(i) + "-";
    assert Tagged(prefix, i, k1)[|head|..] == NatToString(k1);
    assert Tagged(prefix, i, k2)[|head|..] == NatToString(k2);
  }

  /**
   * The pairs `{kp}{i}-{k} -> {vp}{i}-{k}` for 1 <= k < m, as the loop over
   * `range(i)` that skips k = 0 stores them.
   */
  function Entries(kp: string, vp: string, i: nat, m: nat): (d: map<string, string>)
    ensures forall k :: 1 <= k < m ==> Tagged(kp, i, k) in d && d[Tagged(kp, i, k)] == Tagged(vp, i, k)
  {
    if m <= 1 then map[]
    else
      var d := Entries(kp, vp, i, m - 1);
      assert forall k :: 1 <= k < m - 1 ==> Tagged(kp, i, k) != Tagged(kp, i, m - 1) by {
        forall k | 1 <= k < m - 1
          ensures Tagged(kp, i, k) != Tagged(kp, i, m - 1)
        {
          TaggedDistinct(kp, i, k, m - 1);
        }
      }
      d[Tagged(kp, i, m - 1) := Tagged(vp, i, m - 1)]
  }

  /** Tags from index m on are not yet stored after the first m - 1. */
  lemma {:induction false} EntriesFresh(kp: string, vp: string, i: nat, m: nat, j: nat)
    requires j >= m
    ensures Tagged(kp, i, j) !in Entries(kp, vp, i, m)
  {
    if m > 1 {
      EntriesFresh(kp, vp, i, m - 1, j);
      TaggedDistinct(kp, i, j, m - 1);
    }
  }

  /** The loop stores one pair per k, m - 1 in all. */
  lemma {:induction false} EntriesSize(kp: string, vp: string, i: nat, m: nat)
    ensures |Entries(kp, vp, i, m)| == if m == 0 then 0 else m - 1
  {
    if m > 1 {
      EntriesSize(kp, vp, i, m - 1);
      EntriesFresh(kp, vp, i, m - 1, m - 1);
    }
  }

  /** No key besides `{kp}{i}-{k}` for 1 <= k < m is stored. */
  lemma {:induction false} EntriesKeys(kp: string, vp: string, i: nat, m: nat, key: string)
    requires key in Entries(kp, vp, i, m)
    ensures exists k :: 1 <= k < m && key == Tagged(kp, i, k)
  {
    if m > 1 && key != Tagged(kp, i, m - 1) {
      EntriesKeys(kp, vp, i, m - 1, key);
    }
  }

  /** What the test records of an object: set up front, the listing fills in `pgid` and `json`. */
  datatype ObjectRecord = ObjectRecord(
    xattr: map<string, string>,
    omapHeader: Option<string>,
    omap: map<string, string>,
    pgid: Option<string>,
    json: Option<string>)

  /** The test's record of all objects, by name. */
  type Db = map<string, ObjectRecord>

  /**
   * What object i should carry: i - 1 extended attributes `key{i}-{k}`, an omap
   * header `hdr{i}` unless i is 1, and i - 1 omap values `okey{i}-{k}`.
   */
  function ExpectedRecord(i: nat): ObjectRecord
  {
    ObjectRecord(Entries("key", "val", i, i),
                 if i != 1 then Some("hdr" + NatToString(i)) else None,
                 Entries("okey", "oval", i, i),
                 None, None)
  }

  /**
   * Object i expects i - 1 extended attributes `key{i}-{k} -> val{i}-{k}`, an omap
   * header `hdr{i}` unless i is 1, and i - 1 omap values `okey{i}-{k} -> oval{i}-{k}`,
   * with no placement recorded yet.
   */
  lemma ExpectedRecordShape(i: nat)
    ensures var rec := ExpectedRecord(i);
            && (rec.omapHeader.Some? <==> i != 1)
            && (rec.omapHeader.Some? ==> rec.omapHeader.value == "hdr" + NatToString(i))
            && (i >= 1 ==> |rec.xattr| == i - 1 && |rec.omap| == i - 1)
            && (forall k :: 1 <= k < i ==> Tagged("key", i, k) in rec.xattr
                                           && rec.xattr[Tagged("key", i, k)] == Tagged("val", i, k))
            && (forall k :: 1 <= k < i ==> Tagged("okey", i, k) in rec.omap
                                           && rec.omap[Tagged("okey", i, k)] == Tagged("oval", i, k))
            && rec.pgid.None? && rec.json.None?
  {
    EntriesSize("key", "val", i, i);
    EntriesSize("okey", "oval", i, i);
  }

  /** Object 1 expects no attributes, no omap header and no omap values. */
  lemma FirstObjectBare()
    ensures ExpectedRecord(1).xattr == map[] && ExpectedRecord(1).omap == map[]
    ensures ExpectedRecord(1).omapHeader == None
  {
  }

  // ---------------------------------------------------------------------------
  // cod_setup: creating the objects
  // ---------------------------------------------------------------------------

  /** The `rados` calls the setup makes for object i (and attribute or omap index k). */
  datatype SetupCall =
    | Put(i: nat)
    | SetXattr(i: nat, k: nat)
    | SetOmapHeader(i: nat)
    | SetOmapVal(i: nat, k: nat)

  /**
   * How a failed call ends the setup. A failed `rados put` ends it through its
   * log line, which names an undefined variable (`sys.exit(1)` would follow
   * anyway). The attribute and omap calls go through a status-checked
   * `remote.run`, which raises on a nonzero exit before the code after it can
   * count an error.
   */
  datatype SetupCrash = PutFailed(i: nat) | CallFailed(call: SetupCall)

  /** The call whose failure a crash reports. */
  function CrashedCall(e: SetupCrash): SetupCall
  {
    match e
    case PutFailed(i) => Put(i)
    case CallFailed(c) => c
  }

  /** The calls the setup of objects 1 to n makes, described call by call. */
  predicate Issued(c: SetupCall, n: nat)
  {
    match c
    case Put(i) => 1 <= i <= n
    case SetXattr(i, k) => 1 <= k < i <= n
    case SetOmapHeader(i) => 2 <= i <= n
    case SetOmapVal(i, k) => 1 <= k < i <= n
  }

  /** Where a call comes among its object's calls: the put, the attributes, the header, the omap values. */
  function Rank(c: SetupCall): nat
  {
    match c
    case Put(_) => 0
    case SetXattr(_, k) => k
    case SetOmapHeader(i) => i
    case SetOmapVal(i, k) => i + k
  }

  /** `d` is made before `c`: for an earlier object, or earlier among the same object's calls. */
  predicate IssuedBefore(d: SetupCall, c: SetupCall)
  {
    d.i < c.i || (d.i == c.i && Rank(d) < Rank(c))
  }

  /**
   * The attribute and omap calls for object i, in the order the loops make
   * them: `setxattr` for k from 1, `setomapheader` unless i is 1, `setomapval`
   * for k from 1.
   */
  function ObjectCalls(i: nat): seq<SetupCall>
  {
    var m := if i == 0 then 0 else i - 1;
    seq(m, k requires 0 <= k < m => SetXattr(i, k + 1))
    + (if i != 1 then [SetOmapHeader(i)] else [])
    + seq(m, k requires 0 <= k < m => SetOmapVal(i, k + 1))
  }

  /**
   * The j-th attribute or omap call of object i is an issued call of that
   * object, ranked j + 1; and every issued call of object i other than its put
   * sits at the position its rank gives.
   */
  lemma ObjectCallsRank(i: nat)
    requires i >= 1
    ensures forall j :: 0 <= j < |ObjectCalls(i)| ==>
              var c := ObjectCalls(i)[j];
              !c.Put? && c.i == i && Issued(c, i) && Rank(c) == j + 1
    ensures forall c :: Issued(c, i) && c.i == i && !c.Put? ==>
              1 <= Rank(c) <= |ObjectCalls(i)| && ObjectCalls(i)[Rank(c) - 1] == c
  {
    var calls := ObjectCalls(i);
    var m := i - 1;
    var header := if i != 1 then [SetOmapHeader(i)] else [];
    assert |calls| == 2 * m + |header|;
    forall j | 0 <= j < |calls|
      ensures var c := calls[j]; !c.Put? && c.i == i && Issued(c, i) && Rank(c) == j + 1
    {
      if j < m {
        assert calls[j] == SetXattr(i, j + 1);
      } else if j < m + |header| {
        assert calls[j] == SetOmapHeader(i);
      } else {
        assert calls[j] == SetOmapVal(i, j - m - |header| + 1);
      }
    }
    forall c | Issued(c, i) && c.i == i && !c.Put?
      ensures 1 <= Rank(c) <= |calls| && calls[Rank(c) - 1] == c
    {
      match c
      case SetXattr(_, k) =>
        assert calls[k - 1] == SetXattr(i, k);
      case SetOmapHeader(_) =>
        assert calls[m] == SetOmapHeader(i);
      case SetOmapVal(_, k) =>
        assert calls[m + |header| + k - 1] == SetOmapVal(i, k);
    }
  }

  /** Position of the first failed call in `calls`, or `|calls|` when all succeed. */
  function FirstFailedAt(calls: seq<SetupCall>, status: SetupCall -> int): (j: nat)
    ensures j <= |calls|
    ensures forall k :: 0 <= k < j ==> status(calls[k]) == 0
    ensures j < |calls| ==> status(calls[j]) != 0
    decreases |calls|
  {
    if |calls| == 0 || status(calls[0]) != 0 then 0
    else 1 + FirstFailedAt(calls[1..], status)
  }

  /**
   * `cod_setup` for objects 1 to n: the record it leaves in `db`, or the
   * failed call that ends the run. The count it returns is always zero: each
   * branch that would add to it follows a call that raises on failure.
   */
  function CodSetup(n: nat, status: SetupCall -> int): Result<Db, SetupCrash>
  {
    if n == 0 then Ok(map[])
    else SetupObject(CodSetup(n - 1, status), n, status)
  }

  /** One iteration of the setup loop, for object i. */
  function SetupObject(prev: Result<Db, SetupCrash>, i: nat, status: SetupCall -> int): Result<Db, SetupCrash>
  {
    match prev
    case Err(e) => Err(e)
    case Ok(db) =>
      match ObjectCrash(i, status)
      case Some(e) => Err(e)
      case None => Ok(db[ObjectName(i) := ExpectedRecord(i)])
  }

  /** The failed call, if any, that ends the run while object i is being created. */
  function ObjectCrash(i: nat, status: SetupCall -> int): Option<SetupCrash>
  {
    if status(Put(i)) != 0 then Some(PutFailed(i))
    else
      var calls := ObjectCalls(i);
      var j := FirstFailedAt(calls, status);
      if j < |calls| then Some(CallFailed(calls[j])) else None
  }

  /** Every call the setup of objects 1 to n makes succeeds. */
  ghost predicate AllSucceed(n: nat, status: SetupCall -> int)
  {
    forall c :: Issued(c, n) ==> status(c) == 0
  }

  /** Every call made before `c` succeeds. */
  ghost predicate SucceedBefore(c: SetupCall, status: SetupCall -> int)
  {
    forall d :: Issued(d, c.i) && IssuedBefore(d, c) ==> status(d) == 0
  }

  /** The calls of objects 1 to n are those of objects 1 to n - 1 and those of object n. */
  lemma IssuedSnoc(n: nat, c: SetupCall)
    requires n >= 1
    ensures Issued(c, n) <==> Issued(c, n - 1) || (Issued(c, n) && c.i == n)
  {
  }

  /**
   * The setup finishes exactly when every call it makes succeeds; otherwise it
   * stops at the first failed call in the order the calls are made.
   */
  lemma {:induction false} CodSetupCompletes(n: nat, status: SetupCall -> int)
    ensures CodSetup(n, status).Ok? <==> AllSucceed(n, status)
    ensures CodSetup(n, status).Err? ==>
              var c := CrashedCall(CodSetup(n, status).error);
              Issued(c, n) && status(c) != 0 && SucceedBefore(c, status)
  {
    if n > 0 {
      CodSetupCompletes(n - 1, status);
      var r := CodSetup(n - 1, status);
      if r.Err? {
        assert CodSetup(n, status) == r;
      } else {
        ObjectCallsRank(n);
        var calls := ObjectCalls(n);
        var j := FirstFailedAt(calls, status);
        assert CodSetup(n, status) == SetupObject(r, n, status);
        if status(Put(n)) != 0 {
          assert CodSetup(n, status) == Err(PutFailed(n));
          assert SucceedBefore(Put(n), status) by {
            forall d | Issued(d, n) && IssuedBefore(d, Put(n)) ensures status(d) == 0 {
              assert Issued(d, n - 1);
            }
          }
        } else if j < |calls| {
          var c := calls[j];
          assert CodSetup(n, status) == Err(CallFailed(c));
          assert SucceedBefore(c, status) by {
            forall d | Issued(d, n) && IssuedBefore(d, c) ensures status(d) == 0 {
              if d.i == n && !d.Put? {
                assert calls[Rank(d) - 1] == d;
              } else if d.i < n {
                assert Issued(d, n - 1);
              }
            }
          }
        } else {
          assert AllSucceed(n, status) by {
            forall c | Issued(c, n) ensures status(c) == 0 {
              if c.i == n && !c.Put? {
                assert calls[Rank(c) - 1] == c;
              } else if c.i < n {
                assert Issued(c, n - 1);
              }
            }
          }
        }
      }
    }
  }

  /** The names of objects 1 to n. */
  function ObjectNameSet(n: nat): set<string>
  {
    set i | 1 <= i <= n :: ObjectName(i)
  }

  /** When the setup finishes, `db` holds exactly objects 1 to n, each with its expected record. */
  lemma {:induction false} CodSetupRecords(n: nat, status: SetupCall -> int)
    requires CodSetup(n, status).Ok?
    ensures CodSetup(n, status).value.Keys == ObjectNameSet(n)
    ensures forall i :: 1 <= i <= n ==> CodSetup(n, status).value[ObjectName(i)] == ExpectedRecord(i)
  {
    if n > 0 {
      var r := CodSetup(n - 1, status);
      assert r.Ok?;
      var prev := r.value;
      assert CodSetup(n, status).value == prev[ObjectName(n) := ExpectedRecord(n)];
      CodSetupRecords(n - 1, status);
      StoreNext(prev, n);
    }
  }

  /** Storing object n's record after objects 1 to n - 1 gives the record of objects 1 to n. */
  lemma StoreNext(prev: Db, n: nat)
    requires n >= 1
    requires prev.Keys == ObjectNameSet(n - 1)
    requires forall i :: 1 <= i < n ==> prev[ObjectName(i)] == ExpectedRecord(i)
    ensures var db := prev[ObjectName(n) := ExpectedRecord(n)];
            && db.Keys == ObjectNameSet(n)
            && forall i :: 1 <= i <= n ==> db[ObjectName(i)] == ExpectedRecord(i)
  {
    var db := prev[ObjectName(n) := ExpectedRecord(n)];
    assert ObjectNameSet(n) == ObjectNameSet(n - 1) + {ObjectName(n)};
    forall i | 1 <= i < n
      ensures db[ObjectName(i)] == ExpectedRecord(i)
    {
      ObjectNamesDistinct(i, n);
    }
  }

  /** The first failed call depends only on the statuses of the calls in the list. */
  lemma {:induction false} FirstFailedAtFrame(calls: seq<SetupCall>, s1: SetupCall -> int, s2: SetupCall -> int)
    requires forall j :: 0 <= j < |calls| ==> s1(calls[j]) == s2(calls[j])
    ensures FirstFailedAt(calls, s1) == FirstFailedAt(calls, s2)
    decreases |calls|
  {
    if |calls| > 0 {
      assert forall j :: 0 <= j < |calls[1..]| ==> calls[1..][j] == calls[j + 1];
      FirstFailedAtFrame(calls[1..], s1, s2);
    }
  }

  /** The setup reads the status of no call it does not make. */
  lemma {:induction false} CodSetupFrame(n: nat, s1: SetupCall -> int, s2: SetupCall -> int)
    requires forall c :: Issued(c, n) ==> s1(c) == s2(c)
    ensures CodSetup(n, s1) == CodSetup(n, s2)
  {
    if n > 0 {
      assert CodSetup(n - 1, s1) == CodSetup(n - 1, s2) by {
        assert forall c :: Issued(c, n - 1) ==> Issued(c, n);
        CodSetupFrame(n - 1, s1, s2);
      }
      assert ObjectCrash(n, s1) == ObjectCrash(n, s2) by {
        ObjectCrashFrame(n, s1, s2);
      }
    }
  }

  /** Creating object i reads the statuses of object i's calls and of nothing else. */
  lemma ObjectCrashFrame(i: nat, s1: SetupCall -> int, s2: SetupCall -> int)
    requires i >= 1
    requires forall c :: Issued(c, i) && c.i == i ==> s1(c) == s2(c)
    ensures ObjectCrash(i, s1) == ObjectCrash(i, s2)
  {
    assert s1(Put(i)) == s2(Put(i));
    ObjectCallsRank(i);
    FirstFailedAtFrame(ObjectCalls(i), s1, s2);
  }

  // ---------------------------------------------------------------------------
  // get_lines and get_pool_id
  // ---------------------------------------------------------------------------

  /** The leading lines before the first empty one. */
  function TakeWhileNonEmpty(lines: seq<string>): (r: seq<string>)
    ensures r <= lines
    ensures forall i :: 0 <= i < |r| ==> |r[i]| > 0
    ensures |r| < |lines| ==> lines[|r|] == ""
  {
    if |lines| == 0 || lines[0] == "" then []
    else [lines[0]] + TakeWhileNonEmpty(lines[1..])
  }

  /**
   * `get_lines`: read a file line by line, dropping each newline, and stop at
   * the first empty line or at the end.
   */
  function GetLines(content: string): (lines: seq<string>)
    ensures forall i :: 0 <= i < |lines| ==> |lines[i]| > 0 && '\n' !in lines[i]
    ensures lines <= Split(content, '\n')
    ensures |lines| < |Split(content, '\n')| ==> Split(content, '\n')[|lines|] == ""
  {
    TakeWhileNonEmpty(Split(content, '\n'))
  }

  /** Written lines, none empty, come back from `get_lines` unchanged. */
  lemma GetLinesOfTerminated(lines: seq<string>)
    requires forall i :: 0 <= i < |lines| ==> |lines[i]| > 0 && '\n' !in lines[i]
    ensures GetLines(Terminated(lines, '\n')) == lines
  {
    assert Terminated(lines, '\n') + "" == Terminated(lines, '\n');
    SplitTerminated(lines, "", '\n');
    var r := GetLines(Terminated(lines, '\n'));
    assert (lines + [""])[|lines|] == "";
    assert |r| <= |lines|;
    assert r == lines[..|r|];
  }

  /** Reading an object's data file back gives its line `count` times. */
  lemma GetLinesOfObjectData(i: nat, count: nat)
    ensures GetLines(ObjectData(ObjectName(i), count)) == Copies(LineText(ObjectName(i)), count)
  {
    var text := LineText(ObjectName(i));
    LineTextOfObject(i);
    RepeatIsTerminated(text, '\n', count);
    assert |text| > 0;
    GetLinesOfTerminated(Copies(text, count));
  }

  /** `get_pool_id` fails with `IndexError` when the output has fewer than four words. */
  datatype PoolIdError = TooFewWords(count: nat)

  /** `get_pool_id`: the fourth whitespace-separated word of `osd pool stats <name>`. */
  function GetPoolId(out: string): (r: Result<string, PoolIdError>)
    ensures r.Ok? <==> |Words(out)| >= 4
    ensures r.Ok? ==> |r.value| > 0 && NoSpace(r.value)
  {
    var ws := Words(out);
    if |ws| >= 4 then Ok(ws[3]) else Err(TooFewWords(|ws|))
  }

  /** On output of the form `pool <name> id <n>` followed by a line break, the id is `n`. */
  lemma GetPoolIdOfStats(name: string, id: nat, tail: string)
    requires |name| > 0 && NoSpace(name)
    ensures GetPoolId("pool " + name + " id " + NatToString(id) + "\n" + tail) == Ok(NatToString(id))
  {
    var digits := NatToString(id);
    DigitsHaveNoSpace(digits);
    assert NoSpace("pool") && NoSpace("id");
    var t3 := digits + ['\n'] + tail;
    var t2 := "id" + [' '] + t3;
    var t1 := name + [' '] + t2;
    assert "pool " + name + " id " + digits + "\n" + tail == "pool" + [' '] + t1;
    assert Words(t3) == [digits] + Words(tail) by { WordsCons(digits, '\n', tail); }
    assert Words(t2) == ["id"] + Words(t3) by { WordsCons("id", ' ', t3); }
    assert Words(t1) == [name] + Words(t2) by { WordsCons(name, ' ', t2); }
    assert Words("pool" + [' '] + t1) == ["pool"] + Words(t1) by { WordsCons("pool", ' ', t1); }
  }
}
