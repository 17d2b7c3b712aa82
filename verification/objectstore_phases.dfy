/**
 * The phases of the objectstore tool task that follow the listing
 * (tasks/ceph_objectstore_tool.py:359-538): the list-attrs comparison, the
 * info and log checks, export, removal and import with their gating, and the
 * verification of the imported data; then the whole run from the listing on.
 * Every command's exit status and output are inputs.
 */
module ObjectstorePhases {
  import opened Results
  import opened Text
  import opened ObjectstoreData
  import opened ObjectstoreTool
  import opened Tally

  /** A command's exit status and what it wrote to standard output. */
  datatype Reply = Reply(status: int, stdout: string)

  // ---------------------------------------------------------------------------
  // list-attrs and get-attr
  // ---------------------------------------------------------------------------

  /** Listed attribute names the comparison passes over: the bare `_` and `snapset`. */
  predicate Skipped(key: string)
  {
    key == "_" || key == "snapset"
  }

  /** The user attribute a listed name stands for: the name with its underscores stripped. */
  function AttrName(key: string): string
  {
    Strip(key, '_')
  }

  /**
   * The loop over the listed names for one object on one OSD, with the naming
   * of a listed key as a parameter: a name with no expected attribute left is
   * an error; otherwise the expected value is taken out of the table and read
   * back with `get-attr`, and a failed read or a different value is an error.
   * Returns the error count and the expected attributes no listed name took
   * out.
   */
  function CheckWith(keys: seq<string>, values: map<string, string>, getAttr: string -> Reply,
                     nameOf: string -> string): (r: (nat, map<string, string>))
    ensures r.0 <= |keys|
    decreases |keys|
  {
    if |keys| == 0 then (0, values)
    else if Skipped(keys[0]) then CheckWith(keys[1..], values, getAttr, nameOf)
    else
      var name := nameOf(keys[0]);
      if name !in values then
        var rest := CheckWith(keys[1..], values, getAttr, nameOf);
        (rest.0 + 1, rest.1)
      else
        var reply := getAttr("_" + name);
        var here := if reply.status != 0 || reply.stdout != values[name] then 1 else 0;
        var rest := CheckWith(keys[1..], values - {name}, getAttr, nameOf);
        (rest.0 + here, rest.1)
  }

  /** The comparison as the test runs it, naming each listed key by stripping its underscores. */
  function CheckAttrs(keys: seq<string>, values: map<string, string>, getAttr: string -> Reply)
    : (r: (nat, map<string, string>))
    ensures r.0 <= |keys|
  {
    CheckWith(keys, values, getAttr, AttrName)
  }

  /** The attributes the listing names, skipped entries aside. */
  function Named(keys: seq<string>): set<string>
  {
    if |keys| == 0 then {}
    else (if Skipped(keys[0]) then {} else {AttrName(keys[0])}) + Named(keys[1..])
  }

  /** Every entry the comparison does not skip contributes its attribute to `Named`. */
  lemma {:induction false} NamedHas(keys: seq<string>, i: nat)
    requires i < |keys| && !Skipped(keys[i])
    ensures AttrName(keys[i]) in Named(keys)
  {
    if i > 0 {
      NamedHas(keys[1..], i - 1);
      assert keys[1..][i - 1] == keys[i];
    }
  }

  /**
   * The attributes left over are exactly the expected ones the listing never
   * named. They are logged, not counted: an attribute missing from the
   * listing is no error.
   */
  lemma {:induction false} CheckAttrsRemaining(keys: seq<string>, values: map<string, string>, getAttr: string -> Reply)
    ensures CheckAttrs(keys, values, getAttr).1 == values - Named(keys)
    decreases |keys|
  {
    if |keys| > 0 {
      var rest := keys[1..];
      var name := AttrName(keys[0]);
      if Skipped(keys[0]) {
        CheckAttrsRemaining(rest, values, getAttr);
      } else if name !in values {
        assert values - Named(rest) == values - Named(keys) by {
          SubtractAbsent(values, name, Named(rest));
        }
        CheckAttrsRemaining(rest, values, getAttr);
      } else {
        assert values - {name} - Named(rest) == values - Named(keys) by {
          SubtractTwice(values, name, Named(rest));
        }
        CheckAttrsRemaining(rest, values - {name}, getAttr);
      }
    }
  }

  /** Taking out a key the map does not hold changes nothing. */
  lemma SubtractAbsent(m: map<string, string>, k: string, ks: set<string>)
    requires k !in m
    ensures m - ({k} + ks) == m - ks
  {
  }

  /** Taking out one key and then a set of keys is taking out both at once. */
  lemma SubtractTwice(m: map<string, string>, k: string, ks: set<string>)
    ensures m - {k} - ks == m - ({k} + ks)
  {
  }

  /** What one listed key adds to the count, and the expected attributes left after it. */
  function KeyStep(key: string, values: map<string, string>, getAttr: string -> Reply,
                   nameOf: string -> string): (nat, map<string, string>)
  {
    if Skipped(key) then (0, values)
    else if nameOf(key) !in values then (1, values)
    else
      var name := nameOf(key);
      var reply := getAttr("_" + name);
      (if reply.status != 0 || reply.stdout != values[name] then 1 else 0, values - {name})
  }

  /** The loop takes one key's step, then checks the rest against what is left. */
  lemma CheckWithCons(keys: seq<string>, values: map<string, string>, getAttr: string -> Reply,
                      nameOf: string -> string)
    requires |keys| > 0
    ensures var step := KeyStep(keys[0], values, getAttr, nameOf);
            var rest := CheckWith(keys[1..], step.1, getAttr, nameOf);
            CheckWith(keys, values, getAttr, nameOf) == (step.0 + rest.0, rest.1)
  {
  }

  lemma {:induction false} CheckWithAppend(a: seq<string>, b: seq<string>, values: map<string, string>,
                                           getAttr: string -> Reply, nameOf: string -> string)
    ensures var ra := CheckWith(a, values, getAttr, nameOf);
            var rb := CheckWith(b, ra.1, getAttr, nameOf);
            CheckWith(a + b, values, getAttr, nameOf) == (ra.0 + rb.0, rb.1)
    decreases |a|
  {
    if |a| == 0 {
      assert a + b == b;
    } else {
      assert (a + b)[0] == a[0];
      assert (a + b)[1..] == a[1..] + b;
      var step := KeyStep(a[0], values, getAttr, nameOf);
      CheckWithCons(a + b, values, getAttr, nameOf);
      CheckWithCons(a, values, getAttr, nameOf);
      CheckWithAppend(a[1..], b, step.1, getAttr, nameOf);
    }
  }

  /**
   * Checking `a + b` is checking `a`, then checking `b` against the
   * attributes `a` left: the errors add up.
   */
  lemma CheckAttrsAppend(a: seq<string>, b: seq<string>, values: map<string, string>, getAttr: string -> Reply)
    ensures var ra := CheckAttrs(a, values, getAttr);
            var rb := CheckAttrs(b, ra.1, getAttr);
            CheckAttrs(a + b, values, getAttr) == (ra.0 + rb.0, rb.1)
  {
    CheckWithAppend(a, b, values, getAttr, AttrName);
  }

  /**
   * Each listed name adds one error when it is not skipped and either names
   * no expected attribute not already named before it, or reads back with a
   * failed `get-attr` or a different value; otherwise it adds none.
   */
  lemma CheckAttrsSnoc(keys: seq<string>, key: string, values: map<string, string>, getAttr: string -> Reply)
    ensures var name := AttrName(key);
            var left := values - Named(keys);
            var bad := !Skipped(key) && (name !in left || getAttr("_" + name) != Reply(0, values[name]));
            CheckAttrs(keys + [key], values, getAttr).0 == CheckAttrs(keys, values, getAttr).0 + (if bad then 1 else 0)
  {
    CheckAttrsAppend(keys, [key], values, getAttr);
    CheckAttrsRemaining(keys, values, getAttr);
    var left := CheckAttrs(keys, values, getAttr).1;
    assert [key][1..] == [];
    assert CheckAttrs([key][1..], left, getAttr).0 == 0;
    assert CheckAttrs([key][1..], left - {AttrName(key)}, getAttr).0 == 0;
  }

  /**
   * The listing checks clean: every name it gives, skipped ones aside, is an
   * expected attribute not named before, and reads back with its expected
   * value.
   */
  predicate AttrsClean(keys: seq<string>, values: map<string, string>, getAttr: string -> Reply)
  {
    forall i :: 0 <= i < |keys| && !Skipped(keys[i]) ==>
      && AttrName(keys[i]) in values
      && getAttr("_" + AttrName(keys[i])) == Reply(0, values[AttrName(keys[i])])
      && forall j :: 0 <= j < i && !Skipped(keys[j]) ==> AttrName(keys[j]) != AttrName(keys[i])
  }

  /** The comparison counts no error exactly when the listing checks clean. */
  lemma {:induction false} CheckAttrsClean(keys: seq<string>, values: map<string, string>, getAttr: string -> Reply)
    ensures CheckAttrs(keys, values, getAttr).0 == 0 <==> AttrsClean(keys, values, getAttr)
    decreases |keys|
  {
    if |keys| > 0 {
      var rest := keys[1..];
      assert forall i :: 1 <= i < |keys| ==> keys[i] == rest[i - 1];
      var name := AttrName(keys[0]);
      if Skipped(keys[0]) {
        CheckAttrsClean(rest, values, getAttr);
        CleanSkip(keys, values, getAttr);
      } else if name !in values {
        assert !AttrsClean(keys, values, getAttr);
      } else {
        CheckAttrsClean(rest, values - {name}, getAttr);
        CleanTake(keys, values, getAttr);
      }
    }
  }

  /** A skipped first entry plays no part in whether the listing checks clean. */
  lemma CleanSkip(keys: seq<string>, values: map<string, string>, getAttr: string -> Reply)
    requires |keys| > 0 && Skipped(keys[0])
    ensures AttrsClean(keys, values, getAttr) <==> AttrsClean(keys[1..], values, getAttr)
  {
    if AttrsClean(keys[1..], values, getAttr) {
      CleanSkipAdd(keys, values, getAttr);
    }
    if AttrsClean(keys, values, getAttr) {
      CleanSkipDrop(keys, values, getAttr);
    }
  }

  /** Putting a skipped entry in front of a clean listing keeps it clean. */
  lemma CleanSkipAdd(keys: seq<string>, values: map<string, string>, getAttr: string -> Reply)
    requires |keys| > 0 && Skipped(keys[0]) && AttrsClean(keys[1..], values, getAttr)
    ensures AttrsClean(keys, values, getAttr)
  {
    var rest := keys[1..];
    forall i | 0 <= i < |keys| && !Skipped(keys[i])
      ensures AttrName(keys[i]) in values
      ensures getAttr("_" + AttrName(keys[i])) == Reply(0, values[AttrName(keys[i])])
      ensures forall j :: 0 <= j < i && !Skipped(keys[j]) ==> AttrName(keys[j]) != AttrName(keys[i])
    {
      assert keys[i] == rest[i - 1];
      forall j | 0 <= j < i && !Skipped(keys[j]) ensures AttrName(keys[j]) != AttrName(keys[i]) {
        assert keys[j] == rest[j - 1];
      }
    }
  }

  /** Dropping the first entry of a clean listing keeps it clean. */
  lemma CleanSkipDrop(keys: seq<string>, values: map<string, string>, getAttr: string -> Reply)
    requires |keys| > 0 && AttrsClean(keys, values, getAttr)
    ensures AttrsClean(keys[1..], values, getAttr)
  {
    var rest := keys[1..];
    forall i | 0 <= i < |rest| && !Skipped(rest[i])
      ensures AttrName(rest[i]) in values
      ensures getAttr("_" + AttrName(rest[i])) == Reply(0, values[AttrName(rest[i])])
      ensures forall j :: 0 <= j < i && !Skipped(rest[j]) ==> AttrName(rest[j]) != AttrName(rest[i])
    {
      assert rest[i] == keys[i + 1];
      forall j | 0 <= j < i && !Skipped(rest[j]) ensures AttrName(rest[j]) != AttrName(rest[i]) {
        assert rest[j] == keys[j + 1];
      }
    }
  }

  /**
   * With a first entry naming an expected attribute, the listing checks clean
   * exactly when that attribute reads back right and the rest checks clean
   * against the table without it.
   */
  lemma CleanTake(keys: seq<string>, values: map<string, string>, getAttr: string -> Reply)
    requires |keys| > 0 && !Skipped(keys[0]) && AttrName(keys[0]) in values
    ensures var name := AttrName(keys[0]);
            AttrsClean(keys, values, getAttr)
            <==> getAttr("_" + name) == Reply(0, values[name]) && AttrsClean(keys[1..], values - {name}, getAttr)
  {
    var name := AttrName(keys[0]);
    var rest := keys[1..];
    var smaller := values - {name};
    assert forall i :: 1 <= i < |keys| ==> keys[i] == rest[i - 1];
    if AttrsClean(keys, values, getAttr) {
      forall i | 0 <= i < |rest| && !Skipped(rest[i])
        ensures AttrName(rest[i]) in smaller
        ensures getAttr("_" + AttrName(rest[i])) == Reply(0, smaller[AttrName(rest[i])])
        ensures forall j :: 0 <= j < i && !Skipped(rest[j]) ==> AttrName(rest[j]) != AttrName(rest[i])
      {
        assert rest[i] == keys[i + 1];
        assert AttrName(keys[0]) != AttrName(keys[i + 1]);
        forall j | 0 <= j < i && !Skipped(rest[j]) ensures AttrName(rest[j]) != AttrName(rest[i]) {
          assert rest[j] == keys[j + 1];
        }
      }
    }
    if getAttr("_" + name) == Reply(0, values[name]) && AttrsClean(rest, smaller, getAttr) {
      forall i | 0 <= i < |keys| && !Skipped(keys[i])
        ensures AttrName(keys[i]) in values
        ensures getAttr("_" + AttrName(keys[i])) == Reply(0, values[AttrName(keys[i])])
        ensures forall j :: 0 <= j < i && !Skipped(keys[j]) ==> AttrName(keys[j]) != AttrName(keys[i])
      {
        if i > 0 {
          assert keys[i] == rest[i - 1];
          forall j | 0 <= j < i && !Skipped(keys[j]) ensures AttrName(keys[j]) != AttrName(keys[i]) {
            if j > 0 {
              assert keys[j] == rest[j - 1];
            }
          }
        }
      }
    }
  }

  /** An attribute name the tool lists as `_name`, which the comparison strips back to `name`. */
  predicate Listable(name: string)
  {
    |name| > 0 && name[0] != '_' && name[|name| - 1] != '_'
  }

  /** What `list-attrs` prints for the user attributes `names`: each with a leading underscore. */
  function Listing(names: seq<string>): (keys: seq<string>)
    ensures |keys| == |names| && forall i :: 0 <= i < |names| ==> keys[i] == "_" + names[i]
  {
    seq(|names|, i requires 0 <= i < |names| => "_" + names[i])
  }

  /** A listed `_name` is not skipped, and stands for `name`. */
  lemma ListingNames(names: seq<string>)
    requires forall i :: 0 <= i < |names| ==> Listable(names[i])
    ensures forall i :: 0 <= i < |names| ==> !Skipped(Listing(names)[i]) && AttrName(Listing(names)[i]) == names[i]
  {
    forall i | 0 <= i < |names|
      ensures !Skipped(Listing(names)[i]) && AttrName(Listing(names)[i]) == names[i]
    {
      StripWrapped(names[i], '_');
      assert Listing(names)[i] == ['_'] + names[i];
    }
  }

  /** A listing of distinct attributes that all read back right checks clean. */
  lemma DistinctListingClean(names: seq<string>, values: map<string, string>, getAttr: string -> Reply)
    requires forall i, j :: 0 <= i < j < |names| ==> names[i] != names[j]
    requires forall i :: 0 <= i < |names| ==> Listable(names[i]) && names[i] in values
    requires forall k :: k in values ==> getAttr("_" + k) == Reply(0, values[k])
    ensures AttrsClean(Listing(names), values, getAttr)
  {
    ListingNames(names);
  }

  /** A listing naming every expected attribute leaves none over. */
  lemma FullListingNamesAll(names: seq<string>, values: map<string, string>)
    requires forall i :: 0 <= i < |names| ==> Listable(names[i])
    requires forall k :: k in values ==> k in names
    ensures values.Keys <= Named(Listing(names))
  {
    ListingNames(names);
    forall k | k in values ensures k in Named(Listing(names)) {
      var i :| 0 <= i < |names| && names[i] == k;
      NamedHas(Listing(names), i);
    }
  }

  /**
   * The listing a healthy object gives, each expected attribute once with its
   * leading underscore, checks without error and leaves nothing over.
   */
  lemma ExpectedListingPasses(names: seq<string>, values: map<string, string>, getAttr: string -> Reply)
    requires forall i, j :: 0 <= i < j < |names| ==> names[i] != names[j]
    requires forall i :: 0 <= i < |names| ==> Listable(names[i]) && names[i] in values
    requires forall k :: k in values ==> k in names
    requires forall k :: k in values ==> getAttr("_" + k) == Reply(0, values[k])
    ensures CheckAttrs(Listing(names), values, getAttr) == (0, map[])
  {
    DistinctListingClean(names, values, getAttr);
    CheckAttrsClean(Listing(names), values, getAttr);
    FullListingNamesAll(names, values);
    CheckAttrsRemaining(Listing(names), values, getAttr);
  }

  /** A role the walk gets past, under the parsing `parse`. */
  predicate ServedBy(role: string, pgs: map<int, seq<string>>, parse: string -> Role)
  {
    match parse(role)
    case NotOsd => true
    case OsdRole(id) => id in pgs
    case BadOsdId => false
  }

  /**
   * The walk of the list-attrs check over the roles, with the parsing of a
   * role as a parameter: in role order, each OSD role whose PG list holds
   * `pg`, once per role; a role it cannot use ends the run.
   */
  function TargetsWith(roles: seq<string>, pgs: map<int, seq<string>>, pg: string, parse: string -> Role)
    : (r: Result<seq<int>, TaskCrash>)
    ensures r.Ok? <==> forall i :: 0 <= i < |roles| ==> ServedBy(roles[i], pgs, parse)
    ensures r.Err? ==> r.error.BadOsdRole? || r.error.NoPgsForOsd?
    decreases |roles|
  {
    if |roles| == 0 then Ok([])
    else
      var rest := TargetsWith(roles[1..], pgs, pg, parse);
      assert forall i :: 1 <= i < |roles| ==> roles[i] == roles[1..][i - 1];
      match parse(roles[0])
      case NotOsd => rest
      case BadOsdId => Err(BadOsdRole(roles[0]))
      case OsdRole(id) =>
        if id !in pgs then Err(NoPgsForOsd(id))
        else if rest.Err? then rest
        else Ok((if pg in pgs[id] then [id] else []) + rest.value)
  }

  /**
   * The OSDs the list-attrs check visits for an object in PG `pg`: in role
   * order, each OSD role whose PG list holds `pg`, once per role.
   */
  function AttrTargets(roles: seq<string>, pgs: map<int, seq<string>>, pg: string): (r: Result<seq<int>, TaskCrash>)
    ensures r.Ok? <==> forall i :: 0 <= i < |roles| ==> RoleServed(roles[i], pgs)
    ensures r.Err? ==> r.error.BadOsdRole? || r.error.NoPgsForOsd?
  {
    assert forall i :: 0 <= i < |roles| ==> (ServedBy(roles[i], pgs, ParseRole) <==> RoleServed(roles[i], pgs));
    TargetsWith(roles, pgs, pg, ParseRole)
  }

  /** `AttrTargets` as a function of the PG. */
  function TargetsOf(roles: seq<string>, pgs: map<int, seq<string>>): string -> Result<seq<int>, TaskCrash>
  {
    pg => AttrTargets(roles, pgs, pg)
  }

  /** The OSDs visited for an object are those the per-PG walk visits with its PG. */
  lemma {:induction false} AttrTargetsAgree(roles: seq<string>, pgs: map<int, seq<string>>, pg: string, osd: int)
    requires AttrTargets(roles, pgs, pg).Ok?
    ensures Visits(roles, pgs).Ok?
    ensures osd in AttrTargets(roles, pgs, pg).value <==> Visit(osd, pg) in Visits(roles, pgs).value
    decreases |roles|
  {
    if |roles| > 0 {
      AttrTargetsAgree(roles[1..], pgs, pg, osd);
      match ParseRole(roles[0])
      case NotOsd =>
      case OsdRole(id) =>
        var vs := VisitsOf(id, pgs[id]);
        assert Visit(osd, pg) in vs <==> osd == id && pg in pgs[id] by {
          if osd == id && pg in pgs[id] {
            var k :| 0 <= k < |pgs[id]| && pgs[id][k] == pg;
            assert vs[k] == Visit(osd, pg);
          }
        }
    }
  }

  /** `get-attr` for one object on one OSD, as a function of the attribute asked for. */
  function AttrReader(getAttr: (int, string, string, string) -> Reply, osd: int, pg: string, obj: string)
    : string -> Reply
  {
    key => getAttr(osd, pg, obj, key)
  }

  /**
   * The errors list-attrs finds for one object over the OSDs visited: a
   * failed listing counts once, otherwise the comparison's count.
   */
  function AttrsOnOsds(osds: seq<int>, obj: string, pg: string, xattr: map<string, string>,
                       listAttrs: (int, string, string) -> Reply,
                       getAttr: (int, string, string, string) -> Reply): nat
  {
    if |osds| == 0 then 0
    else
      var reply := listAttrs(osds[0], pg, obj);
      var here := if reply.status != 0 then 1
                  else CheckAttrs(Words(reply.stdout), xattr, AttrReader(getAttr, osds[0], pg, obj)).0;
      here + AttrsOnOsds(osds[1..], obj, pg, xattr, listAttrs, getAttr)
  }

  /** One OSD lists the object's attributes and the listing checks clean. */
  predicate OsdAttrsClean(osd: int, obj: string, pg: string, xattr: map<string, string>,
                          listAttrs: (int, string, string) -> Reply,
                          getAttr: (int, string, string, string) -> Reply)
  {
    && listAttrs(osd, pg, obj).status == 0
    && AttrsClean(Words(listAttrs(osd, pg, obj).stdout), xattr, AttrReader(getAttr, osd, pg, obj))
  }

  /**
   * One OSD's share of the count: a failed listing counts exactly one, and a
   * successful one counts what checking its keys finds.
   */
  lemma AttrsOnOneOsd(osd: int, obj: string, pg: string, xattr: map<string, string>,
                      listAttrs: (int, string, string) -> Reply,
                      getAttr: (int, string, string, string) -> Reply)
    ensures var reply := listAttrs(osd, pg, obj);
            && (reply.status != 0 ==> AttrsOnOsds([osd], obj, pg, xattr, listAttrs, getAttr) == 1)
            && (reply.status == 0 ==> AttrsOnOsds([osd], obj, pg, xattr, listAttrs, getAttr)
                                      == CheckAttrs(Words(reply.stdout), xattr, AttrReader(getAttr, osd, pg, obj)).0)
  {
    assert [osd][1..] == [];
  }

  /** The count over the OSDs `a + b` is the count over `a` plus the count over `b`. */
  lemma {:induction false} AttrsOnOsdsAppend(a: seq<int>, b: seq<int>, obj: string, pg: string,
                                             xattr: map<string, string>,
                                             listAttrs: (int, string, string) -> Reply,
                                             getAttr: (int, string, string, string) -> Reply)
    ensures AttrsOnOsds(a + b, obj, pg, xattr, listAttrs, getAttr)
            == AttrsOnOsds(a, obj, pg, xattr, listAttrs, getAttr) + AttrsOnOsds(b, obj, pg, xattr, listAttrs, getAttr)
    decreases |a|
  {
    if |a| == 0 {
      assert a + b == b;
    } else {
      assert (a + b)[0] == a[0];
      assert (a + b)[1..] == a[1..] + b;
      AttrsOnOsdsAppend(a[1..], b, obj, pg, xattr, listAttrs, getAttr);
    }
  }

  /** No list-attrs error for an object exactly when every OSD lists it and each listing checks clean. */
  lemma {:induction false} AttrsOnOsdsZero(osds: seq<int>, obj: string, pg: string, xattr: map<string, string>,
                                           listAttrs: (int, string, string) -> Reply,
                                           getAttr: (int, string, string, string) -> Reply)
    ensures AttrsOnOsds(osds, obj, pg, xattr, listAttrs, getAttr) == 0
            <==> forall i :: 0 <= i < |osds| ==> OsdAttrsClean(osds[i], obj, pg, xattr, listAttrs, getAttr)
  {
    if |osds| > 0 {
      var reply := listAttrs(osds[0], pg, obj);
      AttrsOnOsdsZero(osds[1..], obj, pg, xattr, listAttrs, getAttr);
      assert AttrsOnOsds(osds, obj, pg, xattr, listAttrs, getAttr) == 0
             <==> (reply.status == 0 && CheckAttrs(Words(reply.stdout), xattr, AttrReader(getAttr, osds[0], pg, obj)).0 == 0)
                  && AttrsOnOsds(osds[1..], obj, pg, xattr, listAttrs, getAttr) == 0;
      assert OsdAttrsClean(osds[0], obj, pg, xattr, listAttrs, getAttr)
             <==> reply.status == 0 && CheckAttrs(Words(reply.stdout), xattr, AttrReader(getAttr, osds[0], pg, obj)).0 == 0 by {
        CheckAttrsClean(Words(reply.stdout), xattr, AttrReader(getAttr, osds[0], pg, obj));
      }
      assert forall i :: 1 <= i < |osds| ==> osds[i] == osds[1..][i - 1];
    }
  }

  /**
   * The list-attrs phase over the objects in record order, with the OSDs to
   * visit for a PG as a parameter: an object no listing found ends the run,
   * as does a PG whose targets cannot be worked out.
   */
  function AttrPhaseWith(order: seq<string>, db: Db, targetsOf: string -> Result<seq<int>, TaskCrash>,
                         listAttrs: (int, string, string) -> Reply,
                         getAttr: (int, string, string, string) -> Reply): (r: Result<nat, TaskCrash>)
    requires forall i :: 0 <= i < |order| ==> order[i] in db
    ensures r.Ok? ==> forall i :: 0 <= i < |order| ==> db[order[i]].json.Some? && db[order[i]].pgid.Some?
    decreases |order|
  {
    if |order| == 0 then Ok(0)
    else
      var obj := order[0];
      var rec := db[obj];
      assert forall i :: 1 <= i < |order| ==> order[i] == order[1..][i - 1];
      if rec.json.None? || rec.pgid.None? then Err(NotListed(obj))
      else
        match targetsOf(rec.pgid.value)
        case Err(e) => Err(e)
        case Ok(osds) =>
          match AttrPhaseWith(order[1..], db, targetsOf, listAttrs, getAttr)
          case Err(e) => Err(e)
          case Ok(n) => Ok(AttrsOnOsds(osds, obj, rec.pgid.value, rec.xattr, listAttrs, getAttr) + n)
  }

  /**
   * The list-attrs phase as the test runs it, each object's OSDs found by
   * walking the roles: an object no listing found ends the run, as does a
   * role the walk cannot use.
   */
  function AttrPhase(order: seq<string>, roles: seq<string>, pgs: map<int, seq<string>>, db: Db,
                     listAttrs: (int, string, string) -> Reply,
                     getAttr: (int, string, string, string) -> Reply): (r: Result<nat, TaskCrash>)
    requires forall i :: 0 <= i < |order| ==> order[i] in db
    ensures r.Ok? ==> forall i :: 0 <= i < |order| ==> db[order[i]].json.Some? && db[order[i]].pgid.Some?
  {
    AttrPhaseWith(order, db, TargetsOf(roles, pgs), listAttrs, getAttr)
  }

  lemma {:induction false} AttrPhaseWithErrors(order: seq<string>, db: Db, targetsOf: string -> Result<seq<int>, TaskCrash>,
                                               listAttrs: (int, string, string) -> Reply,
                                               getAttr: (int, string, string, string) -> Reply)
    requires forall i :: 0 <= i < |order| ==> order[i] in db
    ensures var r := AttrPhaseWith(order, db, targetsOf, listAttrs, getAttr);
            r.Err? ==> (r.error.NotListed? && r.error.name in order)
                       || exists i :: 0 <= i < |order| && db[order[i]].pgid.Some?
                                      && targetsOf(db[order[i]].pgid.value) == Err(r.error)
    decreases |order|
  {
    if |order| > 0 {
      assert forall i :: 1 <= i < |order| ==> order[i] == order[1..][i - 1];
      AttrPhaseWithErrors(order[1..], db, targetsOf, listAttrs, getAttr);
    }
  }

  /**
   * The list-attrs phase ends the run only at an object no listing found, or
   * at a role the walk cannot use.
   */
  lemma AttrPhaseErrors(order: seq<string>, roles: seq<string>, pgs: map<int, seq<string>>, db: Db,
                        listAttrs: (int, string, string) -> Reply,
                        getAttr: (int, string, string, string) -> Reply)
    requires forall i :: 0 <= i < |order| ==> order[i] in db
    ensures var r := AttrPhase(order, roles, pgs, db, listAttrs, getAttr);
            r.Err? ==> (r.error.NotListed? && r.error.name in order) || r.error.BadOsdRole? || r.error.NoPgsForOsd?
  {
    AttrPhaseWithErrors(order, db, TargetsOf(roles, pgs), listAttrs, getAttr);
  }

  /**
   * List-attrs finds nothing wrong with an object, given its targets: the
   * listing found it, its targets can be worked out, and every OSD visited
   * lists its attributes and they check clean.
   */
  ghost predicate ObjectCleanWith(obj: string, db: Db, targetsOf: string -> Result<seq<int>, TaskCrash>,
                                  listAttrs: (int, string, string) -> Reply,
                                  getAttr: (int, string, string, string) -> Reply)
  {
    && obj in db
    && db[obj].json.Some? && db[obj].pgid.Some?
    && targetsOf(db[obj].pgid.value).Ok?
    && var pg := db[obj].pgid.value;
       var osds := targetsOf(pg).value;
       forall i :: 0 <= i < |osds| ==> OsdAttrsClean(osds[i], obj, pg, db[obj].xattr, listAttrs, getAttr)
  }

  /**
   * List-attrs finds nothing wrong with an object: the listing found it, every
   * role of the walk is usable, and every OSD visited lists its attributes
   * and they check clean.
   */
  ghost predicate AttrObjectClean(obj: string, roles: seq<string>, pgs: map<int, seq<string>>, db: Db,
                                  listAttrs: (int, string, string) -> Reply,
                                  getAttr: (int, string, string, string) -> Reply)
  {
    ObjectCleanWith(obj, db, TargetsOf(roles, pgs), listAttrs, getAttr)
  }

  lemma {:induction false} AttrPhaseWithZero(order: seq<string>, db: Db, targetsOf: string -> Result<seq<int>, TaskCrash>,
                                             listAttrs: (int, string, string) -> Reply,
                                             getAttr: (int, string, string, string) -> Reply)
    requires forall i :: 0 <= i < |order| ==> order[i] in db
    ensures AttrPhaseWith(order, db, targetsOf, listAttrs, getAttr) == Ok(0)
            <==> forall i :: 0 <= i < |order| ==> ObjectCleanWith(order[i], db, targetsOf, listAttrs, getAttr)
    decreases |order|
  {
    if |order| > 0 {
      var obj := order[0];
      var rec := db[obj];
      assert forall i :: 1 <= i < |order| ==> order[i] == order[1..][i - 1];
      AttrPhaseWithZero(order[1..], db, targetsOf, listAttrs, getAttr);
      if rec.json.Some? && rec.pgid.Some? && targetsOf(rec.pgid.value).Ok? {
        var osds := targetsOf(rec.pgid.value).value;
        AttrsOnOsdsZero(osds, obj, rec.pgid.value, rec.xattr, listAttrs, getAttr);
      }
    }
  }

  /** The list-attrs phase ends with no error exactly when every object in `order` checks clean. */
  lemma AttrPhaseZero(order: seq<string>, roles: seq<string>, pgs: map<int, seq<string>>, db: Db,
                      listAttrs: (int, string, string) -> Reply,
                      getAttr: (int, string, string, string) -> Reply)
    requires forall i :: 0 <= i < |order| ==> order[i] in db
    ensures AttrPhase(order, roles, pgs, db, listAttrs, getAttr) == Ok(0)
            <==> forall i :: 0 <= i < |order| ==> AttrObjectClean(order[i], roles, pgs, db, listAttrs, getAttr)
  {
    AttrPhaseWithZero(order, db, TargetsOf(roles, pgs), listAttrs, getAttr);
  }

  lemma {:induction false} AttrPhaseWithAppend(a: seq<string>, b: seq<string>, db: Db,
                                               targetsOf: string -> Result<seq<int>, TaskCrash>,
                                               listAttrs: (int, string, string) -> Reply,
                                               getAttr: (int, string, string, string) -> Reply)
    requires forall i :: 0 <= i < |a| ==> a[i] in db
    requires forall i :: 0 <= i < |b| ==> b[i] in db
    ensures forall i :: 0 <= i < |a + b| ==> (a + b)[i] in db
    ensures AttrPhaseWith(a + b, db, targetsOf, listAttrs, getAttr)
            == match AttrPhaseWith(a, db, targetsOf, listAttrs, getAttr)
               case Err(e) => Err(e)
               case Ok(x) =>
                 match AttrPhaseWith(b, db, targetsOf, listAttrs, getAttr)
                 case Err(e) => Err(e)
                 case Ok(y) => Ok(x + y)
    decreases |a|
  {
    assert forall i :: 0 <= i < |a + b| ==> (a + b)[i] in db by {
      forall i | 0 <= i < |a + b| ensures (a + b)[i] in db {
        if i >= |a| {
          assert (a + b)[i] == b[i - |a|];
        }
      }
    }
    if |a| == 0 {
      assert a + b == b;
    } else {
      assert (a + b)[0] == a[0];
      assert (a + b)[1..] == a[1..] + b;
      assert forall i :: 0 <= i < |a[1..]| ==> a[1..][i] == a[i + 1];
      AttrPhaseWithAppend(a[1..], b, db, targetsOf, listAttrs, getAttr);
    }
  }

  /**
   * The list-attrs phase over `a + b`: the errors of `a` and of `b` add up,
   * and it ends at the first object of `a + b` that ends it.
   */
  lemma AttrPhaseAppend(a: seq<string>, b: seq<string>, roles: seq<string>, pgs: map<int, seq<string>>, db: Db,
                        listAttrs: (int, string, string) -> Reply,
                        getAttr: (int, string, string, string) -> Reply)
    requires forall i :: 0 <= i < |a| ==> a[i] in db
    requires forall i :: 0 <= i < |b| ==> b[i] in db
    ensures forall i :: 0 <= i < |a + b| ==> (a + b)[i] in db
    ensures AttrPhase(a + b, roles, pgs, db, listAttrs, getAttr)
            == match AttrPhase(a, roles, pgs, db, listAttrs, getAttr)
               case Err(e) => Err(e)
               case Ok(x) =>
                 match AttrPhase(b, roles, pgs, db, listAttrs, getAttr)
                 case Err(e) => Err(e)
                 case Ok(y) => Ok(x + y)
  {
    var t := TargetsOf(roles, pgs);
    AttrPhaseWithAppend(a, b, db, t, listAttrs, getAttr);
    assert AttrPhase(a + b, roles, pgs, db, listAttrs, getAttr) == AttrPhaseWith(a + b, db, t, listAttrs, getAttr);
    assert AttrPhase(a, roles, pgs, db, listAttrs, getAttr) == AttrPhaseWith(a, db, t, listAttrs, getAttr);
    assert AttrPhase(b, roles, pgs, db, listAttrs, getAttr) == AttrPhaseWith(b, db, t, listAttrs, getAttr);
  }

  // ---------------------------------------------------------------------------
  // --op info and --op log
  // ---------------------------------------------------------------------------

  /**
   * The info check over the visits: output that does not mention the PG is
   * an error; a failed call ends the run, because its error message asks
   * for a format field it does not pass.
   */
  function InfoPhase(visits: seq<Visit>, info: Visit -> Reply): (r: Result<nat, TaskCrash>)
    ensures r.Ok? <==> forall i :: 0 <= i < |visits| ==> info(visits[i]).status == 0
    ensures r.Ok? ==> r.value <= |visits|
    ensures r.Err? ==> exists i :: 0 <= i < |visits| && info(visits[i]).status != 0
                                   && r.error == InfoFailed(visits[i].osd, visits[i].pg)
                                   && forall j :: 0 <= j < i ==> info(visits[j]).status == 0
    decreases |visits|
  {
    if |visits| == 0 then Ok(0)
    else
      var v := visits[0];
      var reply := info(v);
      assert forall i :: 1 <= i < |visits| ==> visits[i] == visits[1..][i - 1];
      if reply.status != 0 then Err(InfoFailed(v.osd, v.pg))
      else
        match InfoPhase(visits[1..], info)
        case Err(e) =>
          assert exists i :: 1 <= i < |visits| && info(visits[i]).status != 0 && e == InfoFailed(visits[i].osd, visits[i].pg)
                             && forall j :: 0 <= j < i ==> info(visits[j]).status == 0 by {
            var i :| 0 <= i < |visits[1..]| && info(visits[1..][i]).status != 0
                     && e == InfoFailed(visits[1..][i].osd, visits[1..][i].pg)
                     && forall j :: 0 <= j < i ==> info(visits[1..][j]).status == 0;
            assert forall j :: 1 <= j < i + 1 ==> visits[j] == visits[1..][j - 1];
            assert visits[i + 1] == visits[1..][i];
          }
          Err(e)
        case Ok(n) => Ok((if Contains(reply.stdout, v.pg) then 0 else 1) + n)
  }

  /** When every call succeeds, the info check is clean exactly when each output names its PG. */
  lemma {:induction false} InfoPhaseZero(visits: seq<Visit>, info: Visit -> Reply)
    requires InfoPhase(visits, info).Ok?
    ensures InfoPhase(visits, info).value == 0 <==> forall i :: 0 <= i < |visits| ==> Contains(info(visits[i]).stdout, visits[i].pg)
    decreases |visits|
  {
    if |visits| > 0 {
      InfoPhaseZero(visits[1..], info);
      assert forall i :: 1 <= i < |visits| ==> visits[i] == visits[1..][i - 1];
    }
  }

  /** When every call succeeds, the info check counts one error per output that does not name its PG. */
  lemma InfoPhaseCount(visits: seq<Visit>, info: Visit -> Reply)
    requires InfoPhase(visits, info).Ok?
    ensures InfoPhase(visits, info).value == |Positions(visits, v => !Contains(info(v).stdout, v.pg))|
  {
    InfoPhaseCountWhere(visits, info);
    CountWherePositions(visits, v => !Contains(info(v).stdout, v.pg));
  }

  lemma {:induction false} InfoPhaseCountWhere(visits: seq<Visit>, info: Visit -> Reply)
    requires InfoPhase(visits, info).Ok?
    ensures InfoPhase(visits, info).value == CountWhere(visits, v => !Contains(info(v).stdout, v.pg))
    decreases |visits|
  {
    if |visits| > 0 {
      InfoPhaseCountWhere(visits[1..], info);
    }
  }

  /** A log reply the log phase counts: a failed call, or a `modify` entry that disagrees with the PG having objects. */
  predicate LogWrong(v: Visit, withObjects: set<string>, reply: Reply)
  {
    reply.status != 0 || (v.pg in withObjects) != Contains(reply.stdout, "modify")
  }

  /** The log check over the visits: one error per visit whose log reply is wrong. */
  function LogPhase(visits: seq<Visit>, withObjects: set<string>, log: Visit -> Reply): (n: nat)
    ensures n == CountWhere(visits, v => LogWrong(v, withObjects, log(v)))
  {
    if |visits| == 0 then 0
    else
      var v := visits[0];
      var reply := log(v);
      var here := if reply.status != 0 then 1
                  else if (v.pg in withObjects) != Contains(reply.stdout, "modify") then 1
                  else 0;
      here + LogPhase(visits[1..], withObjects, log)
  }

  /** The log check's count is the number of visits whose log reply is wrong. */
  lemma LogPhaseCount(visits: seq<Visit>, withObjects: set<string>, log: Visit -> Reply)
    ensures LogPhase(visits, withObjects, log) == |Positions(visits, v => LogWrong(v, withObjects, log(v)))|
  {
    CountWherePositions(visits, v => LogWrong(v, withObjects, log(v)));
  }

  /** The log check is clean exactly when every call succeeds and shows a modification just for the PGs with objects. */
  lemma {:induction false} LogPhaseZero(visits: seq<Visit>, withObjects: set<string>, log: Visit -> Reply)
    ensures LogPhase(visits, withObjects, log) == 0
            <==> forall i :: 0 <= i < |visits| ==>
                   log(visits[i]).status == 0 && (visits[i].pg in withObjects <==> Contains(log(visits[i]).stdout, "modify"))
  {
    if |visits| > 0 {
      LogPhaseZero(visits[1..], withObjects, log);
      assert forall i :: 1 <= i < |visits| ==> visits[i] == visits[1..][i - 1];
    }
  }

  // ---------------------------------------------------------------------------
  // export, remove, import
  // ---------------------------------------------------------------------------

  /** The error counts of the export, removal and import phases, and whether import ran. */
  datatype TailReport = TailReport(exportErrors: nat, removeErrors: nat, importErrors: nat, importRan: bool)

  /**
   * Every PG is exported and then removed; the import runs only when no
   * export and no removal failed.
   */
  function ExportRemoveImport(visits: seq<Visit>, exportStatus: Visit -> int, removeStatus: Visit -> int,
                              importStatus: Visit -> int): (r: TailReport)
    ensures r.importRan <==> forall i :: 0 <= i < |visits| ==> exportStatus(visits[i]) == 0 && removeStatus(visits[i]) == 0
    ensures !r.importRan ==> r.importErrors == 0
    ensures r.importRan ==> (r.importErrors == 0 <==> forall i :: 0 <= i < |visits| ==> importStatus(visits[i]) == 0)
    ensures r.exportErrors == |Positions(visits, v => exportStatus(v) != 0)|
    ensures r.removeErrors == |Positions(visits, v => removeStatus(v) != 0)|
    ensures r.importRan ==> r.importErrors == |Positions(visits, v => importStatus(v) != 0)|
  {
    var exp := CountFailing(visits, exportStatus);
    var rm := CountFailing(visits, removeStatus);
    CountFailingZero(visits, exportStatus);
    CountFailingZero(visits, removeStatus);
    CountFailingZero(visits, importStatus);
    if exp == 0 && rm == 0 then TailReport(0, 0, CountFailing(visits, importStatus), true)
    else TailReport(exp, rm, 0, false)
  }

  // ---------------------------------------------------------------------------
  // Verifying the imported data
  // ---------------------------------------------------------------------------

  /**
   * Objects `i` to `n`: each is read back with `rados get` and compared with
   * its file; a failed comparison is an error, and a failed read ends the
   * task, because its error message calls a logger method that does not exist.
   */
  function VerifyFrom(i: nat, n: nat, getStatus: nat -> int, diffStatus: nat -> int): (r: Result<nat, TaskCrash>)
    requires i >= 1
    ensures r.Ok? <==> forall j :: i <= j <= n ==> getStatus(j) == 0
    ensures r.Ok? ==> (r.value == 0 <==> forall j :: i <= j <= n ==> diffStatus(j) == 0)
    ensures r.Err? ==> exists j :: i <= j <= n && getStatus(j) != 0 && r.error == GetFailed(j)
                                   && forall k :: i <= k < j ==> getStatus(k) == 0
    decreases n + 1 - i
  {
    if i > n then Ok(0)
    else if getStatus(i) != 0 then Err(GetFailed(i))
    else
      match VerifyFrom(i + 1, n, getStatus, diffStatus)
      case Err(e) => Err(e)
      case Ok(m) => Ok((if diffStatus(i) != 0 then 1 else 0) + m)
  }

  /** When every read succeeds, the verification counts one error per object whose comparison fails. */
  lemma {:induction false} VerifyFromCount(i: nat, n: nat, getStatus: nat -> int, diffStatus: nat -> int)
    requires i >= 1 && VerifyFrom(i, n, getStatus, diffStatus).Ok?
    ensures VerifyFrom(i, n, getStatus, diffStatus).value == |set j: nat | i <= j <= n && diffStatus(j) != 0|
    decreases n + 1 - i
  {
    var all := set j: nat | i <= j <= n && diffStatus(j) != 0;
    if i > n {
      assert all == {};
    } else {
      VerifyFromCount(i + 1, n, getStatus, diffStatus);
      var later := set j: nat | i + 1 <= j <= n && diffStatus(j) != 0;
      if diffStatus(i) != 0 {
        assert all == {i} + later;
        assert i !in later;
      } else {
        assert all == later;
      }
    }
  }

  /** The verification of objects 1 to `n`. */
  function VerifyPhase(n: nat, getStatus: nat -> int, diffStatus: nat -> int): (r: Result<nat, TaskCrash>)
    ensures r.Ok? <==> forall j :: 1 <= j <= n ==> getStatus(j) == 0
    ensures r.Ok? ==> (r.value == 0 <==> forall j :: 1 <= j <= n ==> diffStatus(j) == 0)
    ensures r.Err? ==> exists j :: 1 <= j <= n && r.error == GetFailed(j) && getStatus(j) != 0
  {
    VerifyFrom(1, n, getStatus, diffStatus)
  }

  /** When every read succeeds, the verification counts the objects 1 to `n` whose comparison fails. */
  lemma VerifyPhaseCount(n: nat, getStatus: nat -> int, diffStatus: nat -> int)
    requires VerifyPhase(n, getStatus, diffStatus).Ok?
    ensures VerifyPhase(n, getStatus, diffStatus).value == |set j: nat | 1 <= j <= n && diffStatus(j) != 0|
  {
    VerifyFromCount(1, n, getStatus, diffStatus);
  }

  // ---------------------------------------------------------------------------
  // The run from the listing on
  // ---------------------------------------------------------------------------

  /** What every command after the setup reports, as functions of what it was asked. */
  datatype Replies = Replies(
    listStatus: Visit -> int,
    listOut: Visit -> string,
    listAttrs: (int, string, string) -> Reply,
    getAttr: (int, string, string, string) -> Reply,
    info: Visit -> Reply,
    log: Visit -> Reply,
    exportStatus: Visit -> int,
    removeStatus: Visit -> int,
    importStatus: Visit -> int,
    getStatus: nat -> int,
    diffStatus: nat -> int)

  /**
   * The phases that run over the visits once the listing and list-attrs are
   * done: info, log, export, removal, import, and the verification, which
   * runs only after a clean import. `withObjects` is what the listing marked.
   */
  function PgPhases(objects: nat, visits: seq<Visit>, withObjects: set<string>, rp: Replies): (r: Result<nat, TaskCrash>)
    ensures r.Err? ==> InfoPhase(visits, rp.info).Err? || VerifyPhase(objects, rp.getStatus, rp.diffStatus).Err?
  {
    match InfoPhase(visits, rp.info)
    case Err(e) => Err(e)
    case Ok(infoErrors) =>
      var logErrors := LogPhase(visits, withObjects, rp.log);
      var tail := ExportRemoveImport(visits, rp.exportStatus, rp.removeStatus, rp.importStatus);
      var total := infoErrors + logErrors + tail.exportErrors + tail.removeErrors + tail.importErrors;
      if tail.importRan && tail.importErrors == 0 then
        match VerifyPhase(objects, rp.getStatus, rp.diffStatus)
        case Err(e) => Err(e)
        case Ok(verifyErrors) => Ok(total + verifyErrors)
      else Ok(total)
  }

  /**
   * `ERRORS` at the end of the run, or the exception that ends it. The setup
   * adds nothing to the count: each of its counting branches follows a call
   * that raises when it fails. `order` is the order the record's objects are
   * visited in.
   */
  function RunPhases(objects: nat, roles: seq<string>, pgs: map<int, seq<string>>, db: Db,
                     order: seq<string>, oidOf: string -> Option<string>, rp: Replies): (r: Result<nat, TaskCrash>)
    requires forall i :: 0 <= i < |order| ==> order[i] in db
  {
    match ListWalk(ListState(0, {}, map[], db), roles, pgs, rp.listStatus, rp.listOut, oidOf)
    case Err(e) => Err(e)
    case Ok(listed) => AfterListing(objects, roles, pgs, order, listed, rp)
  }

  /** The run once the listing has filled in the record `listed.db`. */
  function AfterListing(objects: nat, roles: seq<string>, pgs: map<int, seq<string>>, order: seq<string>,
                        listed: ListState, rp: Replies): (r: Result<nat, TaskCrash>)
    requires forall i :: 0 <= i < |order| ==> order[i] in listed.db
  {
    Combine(objects, listed.errors, AttrPhase(order, roles, pgs, listed.db, rp.listAttrs, rp.getAttr),
            Visits(roles, pgs), listed.withObjects, rp)
  }

  /**
   * The listing's count, then list-attrs' outcome, then the walk, then the
   * phases over it: the first exception ends the run, otherwise the counts
   * add up.
   */
  function Combine(objects: nat, listErrors: nat, attrs: Result<nat, TaskCrash>, visits: Result<seq<Visit>, TaskCrash>,
                   withObjects: set<string>, rp: Replies): Result<nat, TaskCrash>
  {
    match attrs
    case Err(e) => Err(e)
    case Ok(attrErrors) =>
      match visits
      case Err(e) => Err(e)
      case Ok(vs) =>
        match PgPhases(objects, vs, withObjects, rp)
        case Err(e) => Err(e)
        case Ok(later) => Ok(listErrors + attrErrors + later)
  }

  lemma CombineZero(objects: nat, listErrors: nat, attrs: Result<nat, TaskCrash>, visits: Result<seq<Visit>, TaskCrash>,
                    withObjects: set<string>, rp: Replies)
    ensures Combine(objects, listErrors, attrs, visits, withObjects, rp) == Ok(0)
            <==> && listErrors == 0 && attrs == Ok(0) && visits.Ok?
                 && PgPhases(objects, visits.value, withObjects, rp) == Ok(0)
  {
  }

  /** Every PG was exported, removed and imported without a failure. */
  ghost predicate TailClean(visits: seq<Visit>, rp: Replies)
  {
    forall i :: 0 <= i < |visits| ==>
      rp.exportStatus(visits[i]) == 0 && rp.removeStatus(visits[i]) == 0 && rp.importStatus(visits[i]) == 0
  }

  /** The same replies, with `rados get` and `diff` replaced. */
  function WithVerify(rp: Replies, getStatus: nat -> int, diffStatus: nat -> int): (q: Replies)
    ensures q.getStatus == getStatus && q.diffStatus == diffStatus
    ensures q.(getStatus := rp.getStatus, diffStatus := rp.diffStatus) == rp
  {
    rp.(getStatus := getStatus, diffStatus := diffStatus)
  }

  /** Gating, for the phases over the visits. */
  lemma PgPhasesVerifyGated(objects: nat, visits: seq<Visit>, withObjects: set<string>, rp: Replies,
                            getStatus: nat -> int, diffStatus: nat -> int)
    requires !TailClean(visits, rp)
    ensures PgPhases(objects, visits, withObjects, rp) == PgPhases(objects, visits, withObjects, WithVerify(rp, getStatus, diffStatus))
  {
    var tail := ExportRemoveImport(visits, rp.exportStatus, rp.removeStatus, rp.importStatus);
    assert !(tail.importRan && tail.importErrors == 0);
  }

  lemma CombineVerifyGated(objects: nat, listErrors: nat, attrs: Result<nat, TaskCrash>,
                           visits: Result<seq<Visit>, TaskCrash>, withObjects: set<string>, rp: Replies,
                           getStatus: nat -> int, diffStatus: nat -> int)
    requires visits.Ok? ==> !TailClean(visits.value, rp)
    ensures Combine(objects, listErrors, attrs, visits, withObjects, rp)
            == Combine(objects, listErrors, attrs, visits, withObjects, WithVerify(rp, getStatus, diffStatus))
  {
    if visits.Ok? {
      PgPhasesVerifyGated(objects, visits.value, withObjects, rp, getStatus, diffStatus);
    }
  }

  lemma CombineVerifyAdds(objects: nat, listErrors: nat, attrs: Result<nat, TaskCrash>,
                          visits: Result<seq<Visit>, TaskCrash>, withObjects: set<string>, rp: Replies)
    requires visits.Ok? && TailClean(visits.value, rp)
    ensures Combine(objects, listErrors, attrs, visits, withObjects, rp)
            == match Combine(objects, listErrors, attrs, visits, withObjects, WithVerify(rp, (j: nat) => 0, (j: nat) => 0))
               case Err(e) => Err(e)
               case Ok(before) =>
                 match VerifyPhase(objects, rp.getStatus, rp.diffStatus)
                 case Err(e) => Err(e)
                 case Ok(verifyErrors) => Ok(before + verifyErrors)
  {
    PgPhasesVerifyAdds(objects, visits.value, withObjects, rp);
  }

  /**
   * The verification runs only after a clean export, removal and import: when
   * any of those calls failed, what `rados get` and `diff` would report
   * changes nothing.
   */
  lemma RunPhasesVerifyGated(objects: nat, roles: seq<string>, pgs: map<int, seq<string>>, db: Db,
                             order: seq<string>, oidOf: string -> Option<string>, rp: Replies,
                             getStatus: nat -> int, diffStatus: nat -> int)
    requires forall i :: 0 <= i < |order| ==> order[i] in db
    requires Visits(roles, pgs).Ok? && !TailClean(Visits(roles, pgs).value, rp)
    ensures RunPhases(objects, roles, pgs, db, order, oidOf, rp)
            == RunPhases(objects, roles, pgs, db, order, oidOf, WithVerify(rp, getStatus, diffStatus))
  {
    var q := WithVerify(rp, getStatus, diffStatus);
    assert q.listStatus == rp.listStatus && q.listOut == rp.listOut;
    var walk := ListWalk(ListState(0, {}, map[], db), roles, pgs, rp.listStatus, rp.listOut, oidOf);
    if walk.Ok? {
      AfterListingVerifyGated(objects, roles, pgs, order, walk.value, rp, getStatus, diffStatus);
    }
  }

  lemma AfterListingVerifyGated(objects: nat, roles: seq<string>, pgs: map<int, seq<string>>, order: seq<string>,
                                listed: ListState, rp: Replies, getStatus: nat -> int, diffStatus: nat -> int)
    requires forall i :: 0 <= i < |order| ==> order[i] in listed.db
    requires Visits(roles, pgs).Ok? && !TailClean(Visits(roles, pgs).value, rp)
    ensures AfterListing(objects, roles, pgs, order, listed, rp)
            == AfterListing(objects, roles, pgs, order, listed, WithVerify(rp, getStatus, diffStatus))
  {
    var q := WithVerify(rp, getStatus, diffStatus);
    assert q.listAttrs == rp.listAttrs && q.getAttr == rp.getAttr;
    CombineVerifyGated(objects, listed.errors, AttrPhase(order, roles, pgs, listed.db, rp.listAttrs, rp.getAttr),
                       Visits(roles, pgs), listed.withObjects, rp, getStatus, diffStatus);
  }

  /** Adding the verification's count, for the phases over the visits. */
  lemma PgPhasesVerifyAdds(objects: nat, visits: seq<Visit>, withObjects: set<string>, rp: Replies)
    requires TailClean(visits, rp)
    ensures PgPhases(objects, visits, withObjects, rp)
            == match PgPhases(objects, visits, withObjects, WithVerify(rp, (j: nat) => 0, (j: nat) => 0))
               case Err(e) => Err(e)
               case Ok(before) =>
                 match VerifyPhase(objects, rp.getStatus, rp.diffStatus)
                 case Err(e) => Err(e)
                 case Ok(verifyErrors) => Ok(before + verifyErrors)
  {
    var tail := ExportRemoveImport(visits, rp.exportStatus, rp.removeStatus, rp.importStatus);
    assert tail.importRan && tail.importErrors == 0;
    assert VerifyPhase(objects, (j: nat) => 0, (j: nat) => 0) == Ok(0);
  }

  /**
   * After a clean export, removal and import the verification runs: the run
   * ends as the same run with every read and comparison succeeding would, and
   * then adds the verification's errors, or ends at its failed read.
   */
  lemma RunPhasesVerifyAdds(objects: nat, roles: seq<string>, pgs: map<int, seq<string>>, db: Db,
                            order: seq<string>, oidOf: string -> Option<string>, rp: Replies)
    requires forall i :: 0 <= i < |order| ==> order[i] in db
    requires Visits(roles, pgs).Ok? && TailClean(Visits(roles, pgs).value, rp)
    ensures RunPhases(objects, roles, pgs, db, order, oidOf, rp)
            == match RunPhases(objects, roles, pgs, db, order, oidOf, WithVerify(rp, (j: nat) => 0, (j: nat) => 0))
               case Err(e) => Err(e)
               case Ok(before) =>
                 match VerifyPhase(objects, rp.getStatus, rp.diffStatus)
                 case Err(e) => Err(e)
                 case Ok(verifyErrors) => Ok(before + verifyErrors)
  {
    var q := WithVerify(rp, (j: nat) => 0, (j: nat) => 0);
    assert q.listStatus == rp.listStatus && q.listOut == rp.listOut;
    var walk := ListWalk(ListState(0, {}, map[], db), roles, pgs, rp.listStatus, rp.listOut, oidOf);
    if walk.Ok? {
      assert RunPhases(objects, roles, pgs, db, order, oidOf, rp) == AfterListing(objects, roles, pgs, order, walk.value, rp);
      assert RunPhases(objects, roles, pgs, db, order, oidOf, q) == AfterListing(objects, roles, pgs, order, walk.value, q);
      AfterListingVerifyAdds(objects, roles, pgs, order, walk.value, rp);
    }
  }

  lemma AfterListingVerifyAdds(objects: nat, roles: seq<string>, pgs: map<int, seq<string>>, order: seq<string>,
                               listed: ListState, rp: Replies)
    requires forall i :: 0 <= i < |order| ==> order[i] in listed.db
    requires Visits(roles, pgs).Ok? && TailClean(Visits(roles, pgs).value, rp)
    ensures AfterListing(objects, roles, pgs, order, listed, rp)
            == match AfterListing(objects, roles, pgs, order, listed, WithVerify(rp, (j: nat) => 0, (j: nat) => 0))
               case Err(e) => Err(e)
               case Ok(before) =>
                 match VerifyPhase(objects, rp.getStatus, rp.diffStatus)
                 case Err(e) => Err(e)
                 case Ok(verifyErrors) => Ok(before + verifyErrors)
  {
    var q := WithVerify(rp, (j: nat) => 0, (j: nat) => 0);
    assert q.listAttrs == rp.listAttrs && q.getAttr == rp.getAttr;
    CombineVerifyAdds(objects, listed.errors, AttrPhase(order, roles, pgs, listed.db, rp.listAttrs, rp.getAttr),
                      Visits(roles, pgs), listed.withObjects, rp);
  }

  /**
   * One visit of a clean run: the listing, info and log calls succeed, the
   * info names the PG, the log has a `modify` entry exactly when some listing
   * of the PG succeeded with output, and the PG exports, removes and imports.
   */
  ghost predicate VisitClean(visits: seq<Visit>, i: nat, rp: Replies)
    requires i < |visits|
  {
    var v := visits[i];
    && rp.listStatus(v) == 0
    && rp.info(v).status == 0 && Contains(rp.info(v).stdout, v.pg)
    && rp.log(v).status == 0
    && (Contains(rp.log(v).stdout, "modify")
        <==> exists j :: 0 <= j < |visits| && visits[j].pg == v.pg && rp.listStatus(visits[j]) == 0
                         && |rp.listOut(visits[j])| > 0)
    && rp.exportStatus(v) == 0 && rp.removeStatus(v) == 0 && rp.importStatus(v) == 0
  }

  /** Every visit is clean. */
  ghost predicate VisitsClean(visits: seq<Visit>, rp: Replies)
  {
    forall i :: 0 <= i < |visits| ==> VisitClean(visits, i, rp)
  }

  /** Every object checks clean under list-attrs against the record `db`. */
  ghost predicate ObjectsClean(order: seq<string>, roles: seq<string>, pgs: map<int, seq<string>>, db: Db, rp: Replies)
  {
    forall k :: 0 <= k < |order| ==> AttrObjectClean(order[k], roles, pgs, db, rp.listAttrs, rp.getAttr)
  }

  /** Every object 1 to `objects` reads back and compares equal. */
  ghost predicate ReadsClean(objects: nat, rp: Replies)
  {
    forall j :: 1 <= j <= objects ==> rp.getStatus(j) == 0 && rp.diffStatus(j) == 0
  }

  /** Every listing call succeeds. */
  ghost predicate ListingsClean(visits: seq<Visit>, rp: Replies)
  {
    forall i :: 0 <= i < |visits| ==> rp.listStatus(visits[i]) == 0
  }

  /** Every info call succeeds and names its PG, and every log call succeeds and agrees with `withObjects`. */
  ghost predicate PgChecksClean(visits: seq<Visit>, withObjects: set<string>, rp: Replies)
  {
    forall i :: 0 <= i < |visits| ==>
      && rp.info(visits[i]).status == 0 && Contains(rp.info(visits[i]).stdout, visits[i].pg)
      && rp.log(visits[i]).status == 0
      && (visits[i].pg in withObjects <==> Contains(rp.log(visits[i]).stdout, "modify"))
  }

  /** `withObjects` marks a PG exactly when some listing of it succeeded with output. */
  ghost predicate MarksListings(visits: seq<Visit>, withObjects: set<string>, rp: Replies)
  {
    forall i :: 0 <= i < |visits| ==>
      (visits[i].pg in withObjects
       <==> exists j :: 0 <= j < |visits| && visits[j].pg == visits[i].pg && rp.listStatus(visits[j]) == 0
                        && |rp.listOut(visits[j])| > 0)
  }

  /** The run after the listing is clean: see `RunClean`. */
  ghost predicate ListedClean(objects: nat, roles: seq<string>, pgs: map<int, seq<string>>, order: seq<string>,
                              listed: ListState, rp: Replies)
  {
    && Visits(roles, pgs).Ok?
    && ObjectsClean(order, roles, pgs, listed.db, rp)
    && VisitsClean(Visits(roles, pgs).value, rp)
    && ReadsClean(objects, rp)
  }

  /**
   * A run the test passes: the listing gets through every role and line, every
   * object checks clean under list-attrs against what the listing recorded,
   * every visit is clean, and every object reads back and compares equal.
   */
  ghost predicate RunClean(objects: nat, roles: seq<string>, pgs: map<int, seq<string>>, db: Db,
                           oidOf: string -> Option<string>, order: seq<string>, rp: Replies)
  {
    && ListWalk(ListState(0, {}, map[], db), roles, pgs, rp.listStatus, rp.listOut, oidOf).Ok?
    && ListedClean(objects, roles, pgs, order,
                   ListWalk(ListState(0, {}, map[], db), roles, pgs, rp.listStatus, rp.listOut, oidOf).value, rp)
  }

  /**
   * The phases over the visits end with no error exactly when every info
   * names its PG, every log agrees with `withObjects`, every PG exports,
   * removes and imports, and every object reads back and compares equal.
   */
  lemma PgPhasesZero(objects: nat, visits: seq<Visit>, withObjects: set<string>, rp: Replies)
    ensures PgPhases(objects, visits, withObjects, rp) == Ok(0)
            <==> PgChecksClean(visits, withObjects, rp) && TailClean(visits, rp) && ReadsClean(objects, rp)
  {
    var info := InfoPhase(visits, rp.info);
    if info.Ok? {
      InfoPhaseZero(visits, rp.info);
    }
    LogPhaseZero(visits, withObjects, rp.log);
    CountFailingZero(visits, rp.exportStatus);
    CountFailingZero(visits, rp.removeStatus);
    CountFailingZero(visits, rp.importStatus);
  }

  /**
   * What a listing walk that gets through establishes about the visits: its
   * count is zero exactly when every listing call succeeds, and it marks the
   * PGs some listing found objects in.
   */
  lemma RunPassListing(roles: seq<string>, pgs: map<int, seq<string>>, db: Db,
                       order: seq<string>, oidOf: string -> Option<string>, rp: Replies)
    requires forall i :: 0 <= i < |order| ==> order[i] in db
    requires ListWalk(ListState(0, {}, map[], db), roles, pgs, rp.listStatus, rp.listOut, oidOf).Ok?
    ensures Visits(roles, pgs).Ok?
    ensures var listed := ListWalk(ListState(0, {}, map[], db), roles, pgs, rp.listStatus, rp.listOut, oidOf).value;
            var visits := Visits(roles, pgs).value;
            && (forall k :: 0 <= k < |order| ==> order[k] in listed.db)
            && (listed.errors == 0 <==> ListingsClean(visits, rp))
            && MarksListings(visits, listed.withObjects, rp)
  {
    var st := ListState(0, {}, map[], db);
    ListWalkIsListPhase(st, roles, pgs, rp.listStatus, rp.listOut, oidOf);
    ListPhaseListing(db, Visits(roles, pgs).value, oidOf, rp);
  }

  /** The listing calls over `visits`, from an empty state, as `RunPassListing` states them. */
  lemma ListPhaseListing(db: Db, visits: seq<Visit>, oidOf: string -> Option<string>, rp: Replies)
    requires ListPhase(ListState(0, {}, map[], db), visits, rp.listStatus, rp.listOut, oidOf).Ok?
    ensures var listed := ListPhase(ListState(0, {}, map[], db), visits, rp.listStatus, rp.listOut, oidOf).value;
            && (listed.errors == 0 <==> ListingsClean(visits, rp))
            && MarksListings(visits, listed.withObjects, rp)
  {
    var st := ListState(0, {}, map[], db);
    var listed := ListPhase(st, visits, rp.listStatus, rp.listOut, oidOf).value;
    CountFailingZero(visits, rp.listStatus);
    forall i | 0 <= i < |visits|
      ensures visits[i].pg in listed.withObjects
              <==> exists j :: 0 <= j < |visits| && visits[j].pg == visits[i].pg && rp.listStatus(visits[j]) == 0
                               && |rp.listOut(visits[j])| > 0
    {
      ListPhaseMarks(st, visits, rp.listStatus, rp.listOut, oidOf, visits[i].pg);
    }
  }

  /** Every visit is clean exactly when the listing, the per-PG checks and the tail each are. */
  lemma VisitsCleanSplit(visits: seq<Visit>, withObjects: set<string>, rp: Replies)
    requires MarksListings(visits, withObjects, rp)
    ensures VisitsClean(visits, rp)
            <==> ListingsClean(visits, rp) && PgChecksClean(visits, withObjects, rp) && TailClean(visits, rp)
  {
    if VisitsClean(visits, rp) {
      forall i | 0 <= i < |visits|
        ensures rp.listStatus(visits[i]) == 0
        ensures rp.info(visits[i]).status == 0 && Contains(rp.info(visits[i]).stdout, visits[i].pg)
        ensures rp.log(visits[i]).status == 0
        ensures (visits[i].pg in withObjects <==> Contains(rp.log(visits[i]).stdout, "modify"))
        ensures rp.exportStatus(visits[i]) == 0 && rp.removeStatus(visits[i]) == 0 && rp.importStatus(visits[i]) == 0
      {
        assert VisitClean(visits, i, rp);
      }
    } else {
      var i :| 0 <= i < |visits| && !VisitClean(visits, i, rp);
      assert !TailClean(visits, rp) || rp.listStatus(visits[i]) != 0
             || !(rp.info(visits[i]).status == 0 && Contains(rp.info(visits[i]).stdout, visits[i].pg))
             || rp.log(visits[i]).status != 0
             || !(visits[i].pg in withObjects <==> Contains(rp.log(visits[i]).stdout, "modify"));
    }
  }

  /** The run after the listing ends with no errors exactly when each of its stages finds none. */
  lemma AfterListingZero(objects: nat, roles: seq<string>, pgs: map<int, seq<string>>, order: seq<string>,
                         listed: ListState, rp: Replies)
    requires forall i :: 0 <= i < |order| ==> order[i] in listed.db
    ensures AfterListing(objects, roles, pgs, order, listed, rp) == Ok(0)
            <==> && listed.errors == 0
                 && AttrPhase(order, roles, pgs, listed.db, rp.listAttrs, rp.getAttr) == Ok(0)
                 && Visits(roles, pgs).Ok?
                 && PgPhases(objects, Visits(roles, pgs).value, listed.withObjects, rp) == Ok(0)
  {
    CombineZero(objects, listed.errors, AttrPhase(order, roles, pgs, listed.db, rp.listAttrs, rp.getAttr),
                Visits(roles, pgs), listed.withObjects, rp);
  }

  /** After a listing walk, the rest of the run ends with no errors exactly when it is clean. */
  lemma AfterListingIff(objects: nat, roles: seq<string>, pgs: map<int, seq<string>>, order: seq<string>,
                        listed: ListState, rp: Replies)
    requires forall i :: 0 <= i < |order| ==> order[i] in listed.db
    requires Visits(roles, pgs).Ok?
    requires listed.errors == 0 <==> ListingsClean(Visits(roles, pgs).value, rp)
    requires MarksListings(Visits(roles, pgs).value, listed.withObjects, rp)
    ensures AfterListing(objects, roles, pgs, order, listed, rp) == Ok(0)
            <==> ListedClean(objects, roles, pgs, order, listed, rp)
  {
    var visits := Visits(roles, pgs).value;
    AfterListingZero(objects, roles, pgs, order, listed, rp);
    assert AttrPhase(order, roles, pgs, listed.db, rp.listAttrs, rp.getAttr) == Ok(0)
           <==> ObjectsClean(order, roles, pgs, listed.db, rp) by {
      AttrPhaseZero(order, roles, pgs, listed.db, rp.listAttrs, rp.getAttr);
    }
    PgPhasesZero(objects, visits, listed.withObjects, rp);
    VisitsCleanSplit(visits, listed.withObjects, rp);
  }

  /** `TEST PASSED` exactly for a clean run: the run ends with no errors if and only if it is clean. */
  lemma RunPassIff(objects: nat, roles: seq<string>, pgs: map<int, seq<string>>, db: Db,
                   order: seq<string>, oidOf: string -> Option<string>, rp: Replies)
    requires forall i :: 0 <= i < |order| ==> order[i] in db
    ensures RunPhases(objects, roles, pgs, db, order, oidOf, rp) == Ok(0) <==> RunClean(objects, roles, pgs, db, oidOf, order, rp)
  {
    var walk := ListWalk(ListState(0, {}, map[], db), roles, pgs, rp.listStatus, rp.listOut, oidOf);
    if walk.Ok? {
      RunPassListing(roles, pgs, db, order, oidOf, rp);
      assert RunPhases(objects, roles, pgs, db, order, oidOf, rp) == AfterListing(objects, roles, pgs, order, walk.value, rp);
      AfterListingIff(objects, roles, pgs, order, walk.value, rp);
    }
  }
}
