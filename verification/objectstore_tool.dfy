/**
 * The test phases of the objectstore tool task (tasks/ceph_objectstore_tool.py:
 * 226-544) once the OSDs are down: which placement groups (PGs) each OSD is
 * asked about, how the `--op list` output fills in the object record, the
 * list-attrs comparison, the info and log checks, and how failures in
 * export, remove and import gate the later phases. Every command's exit status
 * and output are inputs.
 */
module ObjectstoreTool {
  import opened Results
  import opened Text
  import opened ObjectstoreData
  import opened Tally

  /** Ways the run ends with an exception instead of a count of errors. */
  datatype TaskCrash =
    | BadOsdRole(role: string)       // `int()` of the text after "osd." fails
    | NoPgsForOsd(osd: int)          // `pgs[osdid]` for an OSD holding no selected PG
    | BadListLine(line: string)      // a listed line that is not JSON with an "oid"
    | UnknownObject(name: string)    // `db[name]` for a listed object the setup never made
    | NotListed(name: string)        // `db[basename]["json"]` for an object no listing found
    | InfoFailed(osd: int, pg: string)  // the `--op info` error message formats a missing key
    | GetFailed(i: nat)              // the verify phase's error message calls `log.errors`

  // ---------------------------------------------------------------------------
  // Choosing the PGs to test
  // ---------------------------------------------------------------------------

  /** One entry of `pg dump_json`'s `pg_stats`: the PG id and its acting OSDs. */
  datatype PgStat = PgStat(pgid: string, acting: seq<int>)

  /** The PG belongs to the pool: its id starts with the pool id and a dot. */
  predicate InPool(pgid: string, poolId: string)
  {
    Find(pgid, poolId + ".") == 0
  }

  /** `PGS`: the ids of the pool's PGs, in dump order. */
  function SelectPgs(stats: seq<PgStat>, poolId: string): (pgids: seq<string>)
    ensures forall p :: p in pgids <==> exists i :: 0 <= i < |stats| && stats[i].pgid == p && poolId + "." <= p
    ensures |pgids| <= |stats|
  {
    if |stats| == 0 then []
    else (if InPool(stats[0].pgid, poolId) then [stats[0].pgid] else []) + SelectPgs(stats[1..], poolId)
  }

  /** The PGs grouped so far, read with an empty list for an OSD not yet seen. */
  function Lookup(pgs: map<int, seq<string>>, osd: int): seq<string>
  {
    if osd in pgs then pgs[osd] else []
  }

  /** `pgs[osd].append(pgid)`, creating the list first if needed. */
  function AppendPg(pgs: map<int, seq<string>>, osd: int, pgid: string): map<int, seq<string>>
  {
    pgs[osd := Lookup(pgs, osd) + [pgid]]
  }

  /** The inner loop: the PG appended to the list of every OSD in its acting set. */
  function AddToActing(pgs: map<int, seq<string>>, acting: seq<int>, pgid: string): map<int, seq<string>>
    decreases |acting|
  {
    if |acting| == 0 then pgs else AddToActing(AppendPg(pgs, acting[0], pgid), acting[1..], pgid)
  }

  /** The outer loop over `pg_stats`, from the given entry on. */
  function GroupFrom(pgs: map<int, seq<string>>, stats: seq<PgStat>, selected: seq<string>): map<int, seq<string>>
    decreases |stats|
  {
    if |stats| == 0 then pgs
    else
      var next := if stats[0].pgid in selected then AddToActing(pgs, stats[0].acting, stats[0].pgid) else pgs;
      GroupFrom(next, stats[1..], selected)
  }

  /** `pgs`: for each OSD, the selected PGs it serves. */
  function GroupByOsd(stats: seq<PgStat>, selected: seq<string>): map<int, seq<string>>
  {
    GroupFrom(map[], stats, selected)
  }

  /** How often `x` occurs in `xs`. */
  function Count(xs: seq<int>, x: int): nat
  {
    if |xs| == 0 then 0 else (if xs[0] == x then 1 else 0) + Count(xs[1..], x)
  }

  /**
   * Reference: the list an OSD ends up with is every selected PG whose acting
   * set names it, in dump order, once per time it is named.
   */
  function PgsOf(stats: seq<PgStat>, selected: seq<string>, osd: int): seq<string>
  {
    if |stats| == 0 then []
    else
      (if stats[0].pgid in selected then Copies(stats[0].pgid, Count(stats[0].acting, osd)) else [])
      + PgsOf(stats[1..], selected, osd)
  }

  /** An OSD some selected PG is acting on. */
  predicate ServesSelected(stats: seq<PgStat>, selected: seq<string>, osd: int)
  {
    exists i :: 0 <= i < |stats| && stats[i].pgid in selected && osd in stats[i].acting
  }

  lemma {:induction false} AddToActingLookup(pgs: map<int, seq<string>>, acting: seq<int>, pgid: string, osd: int)
    ensures Lookup(AddToActing(pgs, acting, pgid), osd) == Lookup(pgs, osd) + Copies(pgid, Count(acting, osd))
    ensures osd in AddToActing(pgs, acting, pgid) <==> osd in pgs || osd in acting
    decreases |acting|
  {
    if |acting| > 0 {
      AddToActingLookup(AppendPg(pgs, acting[0], pgid), acting[1..], pgid, osd);
      var c := Count(acting[1..], osd);
      if acting[0] == osd {
        assert [pgid] + Copies(pgid, c) == Copies(pgid, c + 1);
      }
      assert osd in acting <==> osd == acting[0] || osd in acting[1..];
    }
  }

  lemma ConcatAssoc(a: seq<string>, b: seq<string>, c: seq<string>)
    ensures a + b + c == a + (b + c)
  {
  }

  lemma {:induction false} GroupFromLookup(pgs: map<int, seq<string>>, stats: seq<PgStat>, selected: seq<string>, osd: int)
    ensures Lookup(GroupFrom(pgs, stats, selected), osd) == Lookup(pgs, osd) + PgsOf(stats, selected, osd)
    decreases |stats|
  {
    if |stats| > 0 {
      var next := if stats[0].pgid in selected then AddToActing(pgs, stats[0].acting, stats[0].pgid) else pgs;
      GroupFromLookup(next, stats[1..], selected, osd);
      AddToActingLookup(pgs, stats[0].acting, stats[0].pgid, osd);
      var here := if stats[0].pgid in selected then Copies(stats[0].pgid, Count(stats[0].acting, osd)) else [];
      assert Lookup(next, osd) == Lookup(pgs, osd) + here;
      assert PgsOf(stats, selected, osd) == here + PgsOf(stats[1..], selected, osd);
      ConcatAssoc(Lookup(pgs, osd), here, PgsOf(stats[1..], selected, osd));
    }
  }

  lemma {:induction false} GroupFromKeys(pgs: map<int, seq<string>>, stats: seq<PgStat>, selected: seq<string>, osd: int)
    ensures osd in GroupFrom(pgs, stats, selected) <==> osd in pgs || ServesSelected(stats, selected, osd)
    decreases |stats|
  {
    if |stats| > 0 {
      var next := if stats[0].pgid in selected then AddToActing(pgs, stats[0].acting, stats[0].pgid) else pgs;
      GroupFromKeys(next, stats[1..], selected, osd);
      AddToActingLookup(pgs, stats[0].acting, stats[0].pgid, osd);
      assert ServesSelected(stats, selected, osd) <==>
             (stats[0].pgid in selected && osd in stats[0].acting) || ServesSelected(stats[1..], selected, osd) by {
        if ServesSelected(stats[1..], selected, osd) {
          var i :| 0 <= i < |stats[1..]| && stats[1..][i].pgid in selected && osd in stats[1..][i].acting;
          assert stats[i + 1] == stats[1..][i];
        }
        if ServesSelected(stats, selected, osd) {
          var i :| 0 <= i < |stats| && stats[i].pgid in selected && osd in stats[i].acting;
          if i > 0 {
            assert stats[1..][i - 1] == stats[i];
          }
        }
      }
    }
  }

  /**
   * The grouping loop agrees with the reference: each OSD's list is its
   * selected PGs in dump order, and an OSD has a list exactly when it serves
   * some selected PG.
   */
  lemma GroupByOsdSpec(stats: seq<PgStat>, selected: seq<string>, osd: int)
    ensures Lookup(GroupByOsd(stats, selected), osd) == PgsOf(stats, selected, osd)
    ensures osd in GroupByOsd(stats, selected) <==> ServesSelected(stats, selected, osd)
  {
    GroupFromLookup(map[], stats, selected, osd);
    GroupFromKeys(map[], stats, selected, osd);
  }

  // ---------------------------------------------------------------------------
  // Walking the OSD roles
  // ---------------------------------------------------------------------------

  /** What a role name says: not an OSD, an OSD with its id, or an OSD whose id is not a number. */
  datatype Role = NotOsd | OsdRole(id: int) | BadOsdId

  /**
   * `int(role.split('.')[1])` for roles where `string.find(role, "osd.")` is 0,
   * that is, roles starting with `osd.`; other roles are skipped.
   */
  function ParseRole(role: string): (r: Role)
    ensures r.NotOsd? <==> !("osd." <= role)
    ensures r.OsdRole? ==> "osd." <= role && '.' in role && PyInt(Split(role, '.')[1]) == Some(r.id)
    ensures r.BadOsdId? ==> "osd." <= role && '.' in role && PyInt(Split(role, '.')[1]).None?
  {
    if !("osd." <= role) then NotOsd
    else
      assert role[3] == '.';
      var parts := Split(role, '.');
      match PyInt(parts[1])
      case Some(id) => OsdRole(id)
      case None => BadOsdId
  }

  /** `osd.{n}` names OSD n. */
  lemma ParseRoleOfOsd(n: nat)
    ensures ParseRole("osd." + NatToString(n)) == OsdRole(n)
  {
    var digits := NatToString(n);
    var role := "osd." + digits;
    assert "osd." <= role;
    assert Split(role, '.')[1] == digits by {
      assert role == "osd" + ['.'] + digits;
      SplitCons("osd", '.', digits);
      assert '.' !in digits by {
        assert AllDigits(digits);
      }
    }
    PyIntOfNatToString(n);
  }

  /** One (OSD, PG) pair a phase visits. */
  datatype Visit = Visit(osd: int, pg: string)

  /** The visits for one OSD: each of its PGs, in list order. */
  function VisitsOf(osd: int, pgs: seq<string>): (vs: seq<Visit>)
    ensures |vs| == |pgs| && forall k :: 0 <= k < |pgs| ==> vs[k] == Visit(osd, pgs[k])
  {
    seq(|pgs|, k requires 0 <= k < |pgs| => Visit(osd, pgs[k]))
  }

  /** A role the walk gets past: not an OSD, or an OSD holding selected PGs. */
  predicate RoleServed(role: string, pgs: map<int, seq<string>>)
  {
    match ParseRole(role)
    case NotOsd => true
    case OsdRole(id) => id in pgs
    case BadOsdId => false
  }

  /**
   * The walk every per-PG phase makes: over the OSD hosts' roles in order,
   * skipping roles that are not OSDs, and over each OSD's PGs.
   */
  function Visits(roles: seq<string>, pgs: map<int, seq<string>>): (r: Result<seq<Visit>, TaskCrash>)
    ensures r.Ok? <==> forall i :: 0 <= i < |roles| ==> RoleServed(roles[i], pgs)
    ensures r.Ok? ==> forall v :: v in r.value ==> v.osd in pgs && v.pg in pgs[v.osd]
  {
    if |roles| == 0 then Ok([])
    else
      var rest := Visits(roles[1..], pgs);
      assert forall i :: 1 <= i < |roles| ==> roles[i] == roles[1..][i - 1];
      match ParseRole(roles[0])
      case NotOsd => rest
      case BadOsdId => Err(BadOsdRole(roles[0]))
      case OsdRole(id) =>
        if id !in pgs then Err(NoPgsForOsd(id))
        else if rest.Err? then rest
        else Ok(VisitsOf(id, pgs[id]) + rest.value)
  }

  /** Role `roles[i]` names OSD `osd`. */
  predicate ListsOsd(roles: seq<string>, osd: int)
  {
    exists i :: 0 <= i < |roles| && ParseRole(roles[i]) == OsdRole(osd)
  }

  /**
   * The walk over `a + b` is the walk over `a` followed by the walk over `b`,
   * and it ends at the first role of `a + b` that it cannot use.
   */
  lemma {:induction false} VisitsAppend(a: seq<string>, b: seq<string>, pgs: map<int, seq<string>>)
    ensures Visits(a + b, pgs)
            == match Visits(a, pgs)
               case Err(e) => Err(e)
               case Ok(va) =>
                 match Visits(b, pgs)
                 case Err(e) => Err(e)
                 case Ok(vb) => Ok(va + vb)
    decreases |a|
  {
    if |a| == 0 {
      assert a + b == b;
      if Visits(b, pgs).Ok? {
        assert [] + Visits(b, pgs).value == Visits(b, pgs).value;
      }
    } else {
      assert (a + b)[0] == a[0];
      assert (a + b)[1..] == a[1..] + b;
      VisitsAppend(a[1..], b, pgs);
      match ParseRole(a[0])
      case NotOsd =>
      case BadOsdId =>
      case OsdRole(id) =>
        if id in pgs && Visits(a[1..], pgs).Ok? && Visits(b, pgs).Ok? {
          var here := VisitsOf(id, pgs[id]);
          assert here + (Visits(a[1..], pgs).value + Visits(b, pgs).value)
                 == here + Visits(a[1..], pgs).value + Visits(b, pgs).value;
        }
    }
  }

  /** A role naming OSD n, such as `osd.{n}`, visits OSD n's PGs in list order. */
  lemma VisitsOfOsdRole(role: string, n: int, pgs: map<int, seq<string>>)
    requires ParseRole(role) == OsdRole(n)
    ensures Visits([role], pgs) == if n in pgs then Ok(VisitsOf(n, pgs[n])) else Err(NoPgsForOsd(n))
  {
    assert [role][1..] == [];
    assert Visits([role][1..], pgs) == Ok([]);
    if n in pgs {
      assert VisitsOf(n, pgs[n]) + [] == VisitsOf(n, pgs[n]);
    }
  }

  /** A role that is not an OSD visits nothing. */
  lemma VisitsOfOtherRole(role: string, pgs: map<int, seq<string>>)
    requires !("osd." <= role)
    ensures Visits([role], pgs) == Ok([])
  {
    assert [role][1..] == [];
  }

  /**
   * A walk that gets through every role visits (osd, pg) exactly when some
   * role names that OSD and the PG is on its list.
   */
  lemma {:induction false} VisitsComplete(roles: seq<string>, pgs: map<int, seq<string>>, osd: int, pg: string)
    requires Visits(roles, pgs).Ok?
    ensures Visit(osd, pg) in Visits(roles, pgs).value
            <==> ListsOsd(roles, osd) && osd in pgs && pg in pgs[osd]
    decreases |roles|
  {
    if |roles| > 0 {
      var rest := roles[1..];
      VisitsComplete(rest, pgs, osd, pg);
      ListsOsdCons(roles, osd);
      match ParseRole(roles[0])
      case NotOsd =>
      case OsdRole(id) =>
        VisitsOfMembers(id, pgs[id], osd, pg);
    }
  }

  /** A role list names an OSD when its first role does or the rest does. */
  lemma ListsOsdCons(roles: seq<string>, osd: int)
    requires |roles| > 0
    ensures ListsOsd(roles, osd) <==> ParseRole(roles[0]) == OsdRole(osd) || ListsOsd(roles[1..], osd)
  {
    var rest := roles[1..];
    if ListsOsd(rest, osd) {
      var i :| 0 <= i < |rest| && ParseRole(rest[i]) == OsdRole(osd);
      assert roles[i + 1] == rest[i];
    }
    if ListsOsd(roles, osd) {
      var i :| 0 <= i < |roles| && ParseRole(roles[i]) == OsdRole(osd);
      if i > 0 {
        assert rest[i - 1] == roles[i];
      }
    }
  }

  /** One OSD's visits are its PGs, each on that OSD. */
  lemma VisitsOfMembers(id: int, pgList: seq<string>, osd: int, pg: string)
    ensures Visit(osd, pg) in VisitsOf(id, pgList) <==> osd == id && pg in pgList
  {
    var vs := VisitsOf(id, pgList);
    if osd == id && pg in pgList {
      var k :| 0 <= k < |pgList| && pgList[k] == pg;
      assert vs[k] == Visit(osd, pg);
    }
  }

  /** The phases' error count: one per visit whose command exits nonzero. */
  function CountFailing(visits: seq<Visit>, status: Visit -> int): (n: nat)
    ensures n == |Positions(visits, v => status(v) != 0)|
  {
    CountWherePositions(visits, v => status(v) != 0);
    CountWhere(visits, v => status(v) != 0)
  }

  /** No failure is counted exactly when every visited command succeeds. */
  lemma CountFailingZero(visits: seq<Visit>, status: Visit -> int)
    ensures CountFailing(visits, status) == 0 <==> forall i :: 0 <= i < |visits| ==> status(visits[i]) == 0
  {
    CountWhereZero(visits, v => status(v) != 0);
  }

  // ---------------------------------------------------------------------------
  // --op list
  // ---------------------------------------------------------------------------

  /**
   * The non-blank lines, in order. `NonBlankCounts` says each is kept as often
   * as it occurs, and `NonBlankAppend` that their order is kept.
   */
  function NonBlank(lines: seq<string>): (r: seq<string>)
    ensures forall x :: x in r <==> x in lines && |x| > 0
    ensures (forall i :: 0 <= i < |lines| ==> |lines[i]| == 0) ==> r == []
  {
    if |lines| == 0 then []
    else
      var init := lines[..|lines| - 1];
      var last := lines[|lines| - 1];
      assert lines == init + [last];
      NonBlank(init) + (if |last| > 0 then [last] else [])
  }

  /** Dropping the blank lines of `a + b` drops those of `a`, then those of `b`. */
  lemma {:induction false} NonBlankAppend(a: seq<string>, b: seq<string>)
    ensures NonBlank(a + b) == NonBlank(a) + NonBlank(b)
    decreases |b|
  {
    if |b| == 0 {
      assert a + b == a;
    } else {
      var init := b[..|b| - 1];
      var last := b[|b| - 1];
      assert b == init + [last];
      assert a + b == (a + init) + [last];
      NonBlankSnoc(a + init, last);
      NonBlankSnoc(init, last);
      NonBlankAppend(a, init);
      ConcatAssoc(NonBlank(a), NonBlank(init), if |last| > 0 then [last] else []);
    }
  }

  /** A line added at the end is kept at the end when it is not blank. */
  lemma NonBlankSnoc(lines: seq<string>, x: string)
    ensures NonBlank(lines + [x]) == NonBlank(lines) + (if |x| > 0 then [x] else [])
  {
    var s := lines + [x];
    assert s[..|s| - 1] == lines;
    assert s[|s| - 1] == x;
  }

  /** A non-blank line is kept as often as it occurs; a blank one never is. */
  lemma {:induction false} NonBlankCounts(lines: seq<string>, x: string)
    ensures multiset(NonBlank(lines))[x] == if |x| > 0 then multiset(lines)[x] else 0
    decreases |lines|
  {
    if |lines| > 0 {
      var init := lines[..|lines| - 1];
      var last := lines[|lines| - 1];
      assert lines == init + [last];
      NonBlankCounts(init, x);
      assert multiset(lines) == multiset(init) + multiset{last};
    }
  }

  /** `s` back to front. */
  function Reverse(s: seq<string>): (r: seq<string>)
    ensures |r| == |s| && forall k :: 0 <= k < |s| ==> r[k] == s[|s| - 1 - k]
  {
    if |s| == 0 then [] else [s[|s| - 1]] + Reverse(s[..|s| - 1])
  }

  /**
   * The `while pglines` loop: take lines from the end, drop blank ones, read
   * each other line's object name, and record the PG and the line in that
   * object's entry. Returns the names in the order read, and the updated record.
   */
  function ConsumeListing(lines: seq<string>, pg: string, db: Db, oidOf: string -> Option<string>)
    : (r: Result<(seq<string>, Db), TaskCrash>)
    ensures r.Ok? ==> |r.value.0| == |NonBlank(lines)|
    ensures r.Ok? ==> r.value.1.Keys == db.Keys
    decreases |lines|
  {
    if |lines| == 0 then Ok(([], db))
    else
      var init := lines[..|lines| - 1];
      var last := lines[|lines| - 1];
      assert lines == init + [last];
      if |last| == 0 then ConsumeListing(init, pg, db, oidOf)
      else
        match oidOf(last)
        case None => Err(BadListLine(last))
        case Some(name) =>
          if name !in db then Err(UnknownObject(name))
          else
            var db' := db[name := db[name].(pgid := Some(pg), json := Some(last))];
            match ConsumeListing(init, pg, db', oidOf)
            case Err(e) => Err(e)
            case Ok(res) => Ok(([name] + res.0, res.1))
  }

  /** Reversing after appending puts the new element first. */
  lemma ReverseSnoc(s: seq<string>, x: string)
    ensures Reverse(s + [x]) == [x] + Reverse(s)
  {
    assert (s + [x])[..|s|] == s;
  }

  /** Prepending a line and the name read from it keeps lines and names paired up. */
  lemma NamesCons(line: string, lines: seq<string>, name: string, names: seq<string>, oidOf: string -> Option<string>)
    requires oidOf(line) == Some(name) && |lines| == |names|
    requires forall k :: 0 <= k < |names| ==> oidOf(lines[k]) == Some(names[k])
    ensures forall k :: 0 <= k < |names| + 1 ==> oidOf(([line] + lines)[k]) == Some(([name] + names)[k])
  {
    forall k | 1 <= k < |names| + 1
      ensures oidOf(([line] + lines)[k]) == Some(([name] + names)[k])
    {
      assert ([line] + lines)[k] == lines[k - 1];
    }
  }

  /**
   * The names read are those of the non-blank lines, last line first: the
   * listing's object list is the listing reversed, blank lines dropped.
   */
  lemma {:induction false} ConsumeListingNames(lines: seq<string>, pg: string, db: Db, oidOf: string -> Option<string>)
    requires ConsumeListing(lines, pg, db, oidOf).Ok?
    ensures var names := ConsumeListing(lines, pg, db, oidOf).value.0;
            forall k :: 0 <= k < |names| ==> oidOf(Reverse(NonBlank(lines))[k]) == Some(names[k])
    decreases |lines|
  {
    if |lines| > 0 {
      var init := lines[..|lines| - 1];
      var last := lines[|lines| - 1];
      assert lines == init + [last];
      if |last| == 0 {
        ConsumeListingNames(init, pg, db, oidOf);
      } else {
        var name := oidOf(last).value;
        var db' := db[name := db[name].(pgid := Some(pg), json := Some(last))];
        ConsumeListingNames(init, pg, db', oidOf);
        var rest := ConsumeListing(init, pg, db', oidOf).value.0;
        var rev := Reverse(NonBlank(init));
        assert ConsumeListing(lines, pg, db, oidOf).value.0 == [name] + rest;
        assert NonBlank(lines) == NonBlank(init) + [last];
        ReverseSnoc(NonBlank(init), last);
        assert Reverse(NonBlank(lines)) == [last] + rev;
        NamesCons(last, rev, name, rest, oidOf);
      }
    }
  }

  /**
   * Every name read is an object of the record; it now carries this PG and a
   * listed line that names it, and keeps its expected attributes; objects not
   * named are untouched.
   */
  lemma {:induction false} ConsumeListingRecords(lines: seq<string>, pg: string, db: Db, oidOf: string -> Option<string>)
    requires ConsumeListing(lines, pg, db, oidOf).Ok?
    ensures var (names, db2) := ConsumeListing(lines, pg, db, oidOf).value;
            && (forall name :: name in names ==> name in db && db2[name].pgid == Some(pg)
                                                 && db2[name].xattr == db[name].xattr
                                                 && db2[name].json.Some?
                                                 && db2[name].json.value in lines
                                                 && oidOf(db2[name].json.value) == Some(name))
            && (forall name :: name in db && name !in names ==> db2[name] == db[name])
    decreases |lines|
  {
    if |lines| > 0 {
      var init := lines[..|lines| - 1];
      var last := lines[|lines| - 1];
      if |last| == 0 {
        ConsumeListingRecords(init, pg, db, oidOf);
      } else {
        var name := oidOf(last).value;
        var db' := db[name := db[name].(pgid := Some(pg), json := Some(last))];
        ConsumeListingRecords(init, pg, db', oidOf);
      }
    }
  }

  /**
   * The loop fails only on a non-blank line with no object name, or on a name
   * the record does not hold.
   */
  lemma {:induction false} ConsumeListingErrors(lines: seq<string>, pg: string, db: Db, oidOf: string -> Option<string>)
    requires ConsumeListing(lines, pg, db, oidOf).Err?
    ensures match ConsumeListing(lines, pg, db, oidOf).error
            case BadListLine(line) => line in lines && |line| > 0 && oidOf(line).None?
            case UnknownObject(name) => name !in db
            case _ => false
    decreases |lines|
  {
    var init := lines[..|lines| - 1];
    var last := lines[|lines| - 1];
    assert lines == init + [last];
    if |last| == 0 {
      ConsumeListingErrors(init, pg, db, oidOf);
    } else if oidOf(last).Some? && oidOf(last).value in db {
      var name := oidOf(last).value;
      var db' := db[name := db[name].(pgid := Some(pg), json := Some(last))];
      ConsumeListingErrors(init, pg, db', oidOf);
    }
  }

  /** A listing of blank lines names nothing and changes nothing. */
  lemma {:induction false} ConsumeBlank(lines: seq<string>, pg: string, db: Db, oidOf: string -> Option<string>)
    requires forall i :: 0 <= i < |lines| ==> |lines[i]| == 0
    ensures ConsumeListing(lines, pg, db, oidOf) == Ok(([], db))
    decreases |lines|
  {
    if |lines| > 0 {
      ConsumeBlank(lines[..|lines| - 1], pg, db, oidOf);
    }
  }

  /** What the listing phase has gathered. */
  datatype ListState = ListState(
    errors: nat,
    withObjects: set<string>,
    objsInPg: map<string, seq<string>>,
    db: Db)

  /**
   * One `--op list --pgid` call: a failure is counted, empty output changes
   * nothing, and any other output marks the PG as holding objects and replaces
   * its object list with what the lines name.
   */
  function ListVisit(st: ListState, v: Visit, status: int, stdout: string, oidOf: string -> Option<string>)
    : (r: Result<ListState, TaskCrash>)
    ensures status != 0 ==> r == Ok(st.(errors := st.errors + 1))
    ensures status == 0 && |stdout| == 0 ==> r == Ok(st)
    ensures status == 0 && |stdout| > 0 && r.Ok? ==>
              && r.value.errors == st.errors
              && r.value.withObjects == st.withObjects + {v.pg}
              && v.pg in r.value.objsInPg
              && |r.value.objsInPg[v.pg]| == |NonBlank(Split(stdout, '\n'))|
    ensures r.Ok? ==> r.value.db.Keys == st.db.Keys && st.withObjects <= r.value.withObjects
  {
    if status != 0 then Ok(st.(errors := st.errors + 1))
    else if |stdout| == 0 then Ok(st)
    else
      match ConsumeListing(Split(stdout, '\n'), v.pg, st.db, oidOf)
      case Err(e) => Err(e)
      case Ok(res) =>
        Ok(ListState(st.errors, st.withObjects + {v.pg}, st.objsInPg[v.pg := res.0], res.1))
  }

  /** A run of n newlines splits into n + 1 empty lines. */
  lemma SplitNewlines(n: nat)
    ensures Split(Repeat("\n", n), '\n') == Copies("", n) + [""]
  {
    assert "" + "\n" == "\n";
    RepeatIsTerminated("", '\n', n);
    assert Terminated(Copies("", n), '\n') + "" == Repeat("\n", n);
    SplitTerminated(Copies("", n), "", '\n');
  }

  /** Non-empty output whose lines are all blank marks the PG as holding objects, with an empty object list. */
  lemma BlankLinesMarkPg(st: ListState, v: Visit, out: string, oidOf: string -> Option<string>)
    requires |out| > 0
    requires forall i :: 0 <= i < |Split(out, '\n')| ==> |Split(out, '\n')[i]| == 0
    ensures ListVisit(st, v, 0, out, oidOf)
            == Ok(ListState(st.errors, st.withObjects + {v.pg}, st.objsInPg[v.pg := []], st.db))
  {
    ConsumeBlank(Split(out, '\n'), v.pg, st.db, oidOf);
  }

  /** Output made only of newlines still marks the PG as holding objects, with an empty object list. */
  lemma BlankListingMarksPg(st: ListState, v: Visit, n: nat, oidOf: string -> Option<string>)
    requires n > 0
    ensures var r := ListVisit(st, v, 0, Repeat("\n", n), oidOf);
            r.Ok? && v.pg in r.value.withObjects && r.value.objsInPg[v.pg] == []
  {
    var out := Repeat("\n", n);
    var lines := Copies("", n) + [""];
    assert Split(out, '\n') == lines by {
      SplitNewlines(n);
    }
    assert |out| > 0 by {
      assert out == "\n" + Repeat("\n", n - 1);
    }
    assert forall i :: 0 <= i < |lines| ==> |lines[i]| == 0 by {
      forall i | 0 <= i < |lines| ensures |lines[i]| == 0 {
        if i < n {
          assert lines[i] == Copies("", n)[i];
        }
      }
    }
    BlankLinesMarkPg(st, v, out, oidOf);
  }

  /**
   * The `--op list` calls for a run of visits, in order: failures are
   * counted, and the first unreadable listing ends the run.
   */
  function ListPhase(st: ListState, visits: seq<Visit>, listStatus: Visit -> int, listOut: Visit -> string,
                     oidOf: string -> Option<string>): (r: Result<ListState, TaskCrash>)
    ensures r.Ok? ==> r.value.db.Keys == st.db.Keys
    ensures r.Ok? ==> r.value.errors == st.errors + CountFailing(visits, listStatus)
    ensures r.Ok? ==> st.withObjects <= r.value.withObjects
    decreases |visits|
  {
    if |visits| == 0 then Ok(st)
    else
      var v := visits[0];
      match ListVisit(st, v, listStatus(v), listOut(v), oidOf)
      case Err(e) => Err(e)
      case Ok(st') => ListPhase(st', visits[1..], listStatus, listOut, oidOf)
  }

  /** Running the calls for `a + b` is running those for `a`, then those for `b`. */
  lemma {:induction false} ListPhaseAppend(st: ListState, a: seq<Visit>, b: seq<Visit>, listStatus: Visit -> int,
                                           listOut: Visit -> string, oidOf: string -> Option<string>)
    ensures ListPhase(st, a + b, listStatus, listOut, oidOf)
            == match ListPhase(st, a, listStatus, listOut, oidOf)
               case Err(e) => Err(e)
               case Ok(mid) => ListPhase(mid, b, listStatus, listOut, oidOf)
    decreases |a|
  {
    if |a| == 0 {
      assert a + b == b;
    } else {
      assert (a + b)[0] == a[0] && (a + b)[1..] == a[1..] + b;
      match ListVisit(st, a[0], listStatus(a[0]), listOut(a[0]), oidOf)
      case Err(_) =>
      case Ok(st') => ListPhaseAppend(st', a[1..], b, listStatus, listOut, oidOf);
    }
  }

  /**
   * `pgswithobjects`: a PG is marked exactly when some call for it succeeded
   * with non-empty output.
   */
  lemma {:induction false} ListPhaseMarks(st: ListState, visits: seq<Visit>, listStatus: Visit -> int,
                                          listOut: Visit -> string, oidOf: string -> Option<string>, pg: string)
    requires ListPhase(st, visits, listStatus, listOut, oidOf).Ok?
    ensures pg in ListPhase(st, visits, listStatus, listOut, oidOf).value.withObjects
            <==> pg in st.withObjects
                 || exists i :: 0 <= i < |visits| && visits[i].pg == pg && listStatus(visits[i]) == 0
                                && |listOut(visits[i])| > 0
    decreases |visits|
  {
    if |visits| > 0 {
      var v := visits[0];
      var st' := ListVisit(st, v, listStatus(v), listOut(v), oidOf).value;
      ListPhaseMarks(st', visits[1..], listStatus, listOut, oidOf, pg);
      assert pg in st'.withObjects <==> pg in st.withObjects || (v.pg == pg && listStatus(v) == 0 && |listOut(v)| > 0);
      assert forall i :: 1 <= i < |visits| ==> visits[i] == visits[1..][i - 1];
      if exists i :: 0 <= i < |visits[1..]| && visits[1..][i].pg == pg && listStatus(visits[1..][i]) == 0
                     && |listOut(visits[1..][i])| > 0 {
        var i :| 0 <= i < |visits[1..]| && visits[1..][i].pg == pg && listStatus(visits[1..][i]) == 0
                 && |listOut(visits[1..][i])| > 0;
        assert visits[i + 1] == visits[1..][i];
      }
    }
  }

  /**
   * The listing phase as the test runs it: over the OSD roles in order, and
   * for each OSD over its PGs, ending the run at a role it cannot use.
   */
  function ListWalk(st: ListState, roles: seq<string>, pgs: map<int, seq<string>>, listStatus: Visit -> int,
                    listOut: Visit -> string, oidOf: string -> Option<string>): (r: Result<ListState, TaskCrash>)
    ensures r.Ok? ==> r.value.db.Keys == st.db.Keys
    ensures r.Ok? ==> r.value.errors >= st.errors
    decreases |roles|
  {
    if |roles| == 0 then Ok(st)
    else
      match ParseRole(roles[0])
      case NotOsd => ListWalk(st, roles[1..], pgs, listStatus, listOut, oidOf)
      case BadOsdId => Err(BadOsdRole(roles[0]))
      case OsdRole(id) =>
        if id !in pgs then Err(NoPgsForOsd(id))
        else
          match ListPhase(st, VisitsOf(id, pgs[id]), listStatus, listOut, oidOf)
          case Err(e) => Err(e)
          case Ok(st') => ListWalk(st', roles[1..], pgs, listStatus, listOut, oidOf)
  }

  /**
   * A walk that gets through every role is the listing calls run over the
   * visits every later phase makes.
   */
  lemma {:induction false} ListWalkIsListPhase(st: ListState, roles: seq<string>, pgs: map<int, seq<string>>,
                                               listStatus: Visit -> int, listOut: Visit -> string,
                                               oidOf: string -> Option<string>)
    requires ListWalk(st, roles, pgs, listStatus, listOut, oidOf).Ok?
    ensures Visits(roles, pgs).Ok?
    ensures ListWalk(st, roles, pgs, listStatus, listOut, oidOf)
            == ListPhase(st, Visits(roles, pgs).value, listStatus, listOut, oidOf)
    decreases |roles|
  {
    if |roles| > 0 {
      match ParseRole(roles[0])
      case NotOsd =>
        ListWalkIsListPhase(st, roles[1..], pgs, listStatus, listOut, oidOf);
      case OsdRole(id) =>
        var st' := ListPhase(st, VisitsOf(id, pgs[id]), listStatus, listOut, oidOf).value;
        ListWalkIsListPhase(st', roles[1..], pgs, listStatus, listOut, oidOf);
        ListPhaseAppend(st, VisitsOf(id, pgs[id]), Visits(roles[1..], pgs).value, listStatus, listOut, oidOf);
    }
  }
}
