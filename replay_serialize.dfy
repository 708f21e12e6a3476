/**
 * json_serialize: encoding a TransactionReplay as a JSON document. The text
 * rendering of the document (json-c pretty printing) is not part of this model.
 */
module ReplaySerialize {
  import opened Wrappers
  import opened Json
  import opened ReplayModel

  /** The version written into every document: "1.0". */
  const VERSION: string := VERSION_MAJOR + "." + VERSION_MINOR

  /**
   * The object written for one package. Every value goes through `c_str()`, so
   * it is written up to its first NUL; the optional keys are tested on the
   * whole string.
   */
  function PackageObject(p: PackageReplay, vocab: Vocabulary): (o: Json)
  {
    Obj([("nevra", Str(CString(p.nevra))),
         ("action", Str(CString(vocab.actionToString(p.action)))),
         ("reason", Str(CString(vocab.reasonToString(p.reason)))),
         ("repo_id", Str(CString(p.repoId)))]
        + (if p.packagePath != [] then [("package_path", Str(CString(p.packagePath)))] else [])
        + (if p.groupId != [] then [("group_id", Str(CString(p.groupId)))] else []))
  }

  /** The object written for one group. */
  function GroupObject(g: GroupReplay, vocab: Vocabulary): (o: Json)
  {
    Obj([("id", Str(CString(g.groupId))),
         ("action", Str(CString(vocab.actionToString(g.action)))),
         ("reason", Str(CString(vocab.reasonToString(g.reason)))),
         ("repo_id", Str(CString(g.repoId)))])
  }

  /** The object written for one environment. */
  function EnvironmentObject(e: EnvironmentReplay, vocab: Vocabulary): (o: Json)
  {
    Obj([("id", Str(CString(e.environmentId))),
         ("action", Str(CString(vocab.actionToString(e.action)))),
         ("repo_id", Str(CString(e.repoId)))])
  }

  /** The package objects, in package order. */
  function PackageObjects(ps: seq<PackageReplay>, vocab: Vocabulary): (objs: seq<Json>)
  {
    seq(|ps|, i requires 0 <= i < |ps| => PackageObject(ps[i], vocab))
  }

  /** The group objects, in group order. */
  function GroupObjects(gs: seq<GroupReplay>, vocab: Vocabulary): (objs: seq<Json>)
  {
    seq(|gs|, i requires 0 <= i < |gs| => GroupObject(gs[i], vocab))
  }

  /** The environment objects, in environment order. */
  function EnvironmentObjects(es: seq<EnvironmentReplay>, vocab: Vocabulary): (objs: seq<Json>)
  {
    seq(|es|, i requires 0 <= i < |es| => EnvironmentObject(es[i], vocab))
  }

  /** A collection's member of the root object: omitted when the collection is empty. */
  function CollectionMember(key: string, objs: seq<Json>): (members: seq<(string, Json)>)
  {
    if objs == [] then [] else [(key, Arr(objs))]
  }

  /** The collection keys present in a document, in order, followed by "version". */
  function RootKeys(x: TransactionReplay): (keys: seq<string>)
  {
    (if x.packages != [] then ["rpms"] else [])
    + (if x.groups != [] then ["groups"] else [])
    + (if x.environments != [] then ["environments"] else [])
    + ["version"]
  }

  /**
   * The document json_serialize builds: rpms, groups, environments (each only
   * when non-empty), then version. A collection too large for a C `int` is
   * refused, packages checked first.
   */
  function SerializeDocument(x: TransactionReplay, vocab: Vocabulary): (r: Result<Json, ReplayError>)
    ensures r.Err? <==> |x.packages| > INT_MAX || |x.groups| > INT_MAX || |x.environments| > INT_MAX
    ensures r.Err? && |x.packages| > INT_MAX ==> r.error == TooLarge(Packages, |x.packages|)
    ensures r.Ok? ==> r.value.Obj?
  {
    if |x.packages| > INT_MAX then Err(TooLarge(Packages, |x.packages|))
    else if |x.groups| > INT_MAX then Err(TooLarge(Groups, |x.groups|))
    else if |x.environments| > INT_MAX then Err(TooLarge(Environments, |x.environments|))
    else Ok(Obj(RootMembers(x, vocab)))
  }

  /** The members of the root object, in the order json_serialize adds them. */
  function RootMembers(x: TransactionReplay, vocab: Vocabulary): (members: seq<(string, Json)>)
  {
    CollectionMember("rpms", PackageObjects(x.packages, vocab))
    + CollectionMember("groups", GroupObjects(x.groups, vocab))
    + CollectionMember("environments", EnvironmentObjects(x.environments, vocab))
    + [("version", Str(VERSION))]
  }

  /** Looking a key up past a collection's (possibly omitted) member. */
  lemma CollectionLookup(key: string, objs: seq<Json>, rest: seq<(string, Json)>, k: string)
    ensures Lookup(CollectionMember(key, objs) + rest, k) ==
              if k == key && objs != [] then Some(Arr(objs)) else Lookup(rest, k)
  {
    if objs == [] {
      assert CollectionMember(key, objs) + rest == rest;
    }
  }

  /**
   * The top-level keys of the serialised document are rpms, groups, environments
   * (each only when its collection is non-empty) and then version.
   */
  lemma SerializedKeys(x: TransactionReplay, vocab: Vocabulary)
    requires SerializeDocument(x, vocab).Ok?
    ensures Keys(SerializeDocument(x, vocab).value) == RootKeys(x)
  {
    assert Keys(Obj(RootMembers(x, vocab))) == RootKeys(x);
  }

  /**
   * Where each top-level key leads: version is always "1.0", whatever the
   * input; each collection's array holds one object per item, in order; an
   * empty collection has no key.
   */
  lemma SerializedMembers(x: TransactionReplay, vocab: Vocabulary)
    requires SerializeDocument(x, vocab).Ok?
    ensures var doc := SerializeDocument(x, vocab).value;
            && Member(doc, "version") == Some(Str("1.0"))
            && (Member(doc, "rpms").Some? <==> x.packages != [])
            && (Member(doc, "groups").Some? <==> x.groups != [])
            && (Member(doc, "environments").Some? <==> x.environments != [])
            && ElementsOf(Member(doc, "rpms")) == PackageObjects(x.packages, vocab)
            && ElementsOf(Member(doc, "groups")) == GroupObjects(x.groups, vocab)
            && ElementsOf(Member(doc, "environments")) == EnvironmentObjects(x.environments, vocab)
  {
    RootLookup(x, vocab, "version");
    RootLookup(x, vocab, "rpms");
    RootLookup(x, vocab, "groups");
    RootLookup(x, vocab, "environments");
    assert VERSION == "1.0";
  }

  /** Lookup of one top-level key, past the members written before it. */
  lemma RootLookup(x: TransactionReplay, vocab: Vocabulary, k: string)
    ensures Lookup(RootMembers(x, vocab), k) ==
              if k == "rpms" && x.packages != [] then Some(Arr(PackageObjects(x.packages, vocab)))
              else if k == "groups" && x.groups != [] then Some(Arr(GroupObjects(x.groups, vocab)))
              else if k == "environments" && x.environments != [] then Some(Arr(EnvironmentObjects(x.environments, vocab)))
              else if k == "version" then Some(Str(VERSION))
              else None
  {
    var po := PackageObjects(x.packages, vocab);
    var go := GroupObjects(x.groups, vocab);
    var eo := EnvironmentObjects(x.environments, vocab);
    var tail := [("version", Str(VERSION))];
    var last := CollectionMember("environments", eo) + tail;
    var rest := CollectionMember("groups", go) + last;
    assert RootMembers(x, vocab) == CollectionMember("rpms", po) + rest;
    CollectionLookup("rpms", po, rest, k);
    CollectionLookup("groups", go, last, k);
    CollectionLookup("environments", eo, tail, k);
  }

  /**
   * A package object always has nevra, action, reason and repo_id, and has
   * package_path and group_id exactly when they are non-empty.
   */
  lemma PackageMembers(p: PackageReplay, vocab: Vocabulary)
    ensures var o := PackageObject(p, vocab);
            && Member(o, "nevra") == Some(Str(CString(p.nevra)))
            && Member(o, "action") == Some(Str(CString(vocab.actionToString(p.action))))
            && Member(o, "reason") == Some(Str(CString(vocab.reasonToString(p.reason))))
            && Member(o, "repo_id") == Some(Str(CString(p.repoId)))
            && Member(o, "package_path") == (if p.packagePath != [] then Some(Str(CString(p.packagePath))) else None)
            && Member(o, "group_id") == (if p.groupId != [] then Some(Str(CString(p.groupId))) else None)
  {
    var fixed := [("nevra", Str(CString(p.nevra))),
                  ("action", Str(CString(vocab.actionToString(p.action)))),
                  ("reason", Str(CString(vocab.reasonToString(p.reason)))),
                  ("repo_id", Str(CString(p.repoId)))];
    var path := if p.packagePath != [] then [("package_path", Str(CString(p.packagePath)))] else [];
    var group := if p.groupId != [] then [("group_id", Str(CString(p.groupId)))] else [];
    var members := fixed + path + group;
    assert PackageObject(p, vocab).members == members;
    LookupAt(members, 0, "nevra");
    LookupAt(members, 1, "action");
    LookupAt(members, 2, "reason");
    LookupAt(members, 3, "repo_id");
    assert members == fixed + (path + group);
    LookupAppend(fixed, path + group, "package_path");
    LookupAppend(fixed, path + group, "group_id");
    LookupAppend(path, group, "group_id");
  }

  /** A group object has id, action, reason and repo_id. */
  lemma GroupMembers(g: GroupReplay, vocab: Vocabulary)
    ensures var o := GroupObject(g, vocab);
            && Member(o, "id") == Some(Str(CString(g.groupId)))
            && Member(o, "action") == Some(Str(CString(vocab.actionToString(g.action))))
            && Member(o, "reason") == Some(Str(CString(vocab.reasonToString(g.reason))))
            && Member(o, "repo_id") == Some(Str(CString(g.repoId)))
  {
    var gm := GroupObject(g, vocab).members;
    LookupAt(gm, 0, "id");
    LookupAt(gm, 1, "action");
    LookupAt(gm, 2, "reason");
    LookupAt(gm, 3, "repo_id");
  }

  /** An environment object has id, action and repo_id, and no reason. */
  lemma EnvironmentMembers(e: EnvironmentReplay, vocab: Vocabulary)
    ensures var o := EnvironmentObject(e, vocab);
            && Member(o, "id") == Some(Str(CString(e.environmentId)))
            && Member(o, "action") == Some(Str(CString(vocab.actionToString(e.action))))
            && Member(o, "repo_id") == Some(Str(CString(e.repoId)))
            && Member(o, "reason") == None
  {
    var em := EnvironmentObject(e, vocab).members;
    LookupAt(em, 0, "id");
    LookupAt(em, 1, "action");
    LookupAt(em, 2, "repo_id");
    LookupNone(em, "reason");
  }

  // ---------------------------------------------------------------------------
  // The encoder as the source runs it: one loop per collection.
  // ---------------------------------------------------------------------------

  method JsonSerialize(x: TransactionReplay, vocab: Vocabulary) returns (r: Result<Json, ReplayError>)
    ensures r == SerializeDocument(x, vocab)
  {
    var root: seq<(string, Json)> := [];

    var count := |x.packages|;
    if count > INT_MAX {
      return Err(TooLarge(Packages, count));
    }
    if count > 0 {
      var packages := SerializePackages(x.packages, vocab);
      root := root + [("rpms", Arr(packages))];
    }
    assert root == CollectionMember("rpms", PackageObjects(x.packages, vocab));

    count := |x.groups|;
    if count > INT_MAX {
      return Err(TooLarge(Groups, count));
    }
    if count > 0 {
      var groups := SerializeGroups(x.groups, vocab);
      root := root + [("groups", Arr(groups))];
    }
    assert root == CollectionMember("rpms", PackageObjects(x.packages, vocab))
                   + CollectionMember("groups", GroupObjects(x.groups, vocab));

    count := |x.environments|;
    if count > INT_MAX {
      return Err(TooLarge(Environments, count));
    }
    if count > 0 {
      var environments := SerializeEnvironments(x.environments, vocab);
      root := root + [("environments", Arr(environments))];
    }

    var version := VERSION_MAJOR + "." + VERSION_MINOR;
    root := root + [("version", Str(version))];
    assert root == RootMembers(x, vocab);
    return Ok(Obj(root));
  }

  /** The "rpms" loop: one object per package, optional keys added only when non-empty. */
  method SerializePackages(ps: seq<PackageReplay>, vocab: Vocabulary) returns (objs: seq<Json>)
    ensures objs == PackageObjects(ps, vocab)
  {
    objs := [];
    for i := 0 to |ps|
      invariant objs == PackageObjects(ps[..i], vocab)
    {
      var pkg := ps[i];
      var members := [("nevra", Str(CString(pkg.nevra)))];
      members := members + [("action", Str(CString(vocab.actionToString(pkg.action))))];
      members := members + [("reason", Str(CString(vocab.reasonToString(pkg.reason))))];
      members := members + [("repo_id", Str(CString(pkg.repoId)))];
      if pkg.packagePath != [] {
        members := members + [("package_path", Str(CString(pkg.packagePath)))];
      }
      if pkg.groupId != [] {
        members := members + [("group_id", Str(CString(pkg.groupId)))];
      }
      assert Obj(members) == PackageObject(pkg, vocab);
      assert PackageObjects(ps[..i + 1], vocab) == PackageObjects(ps[..i], vocab) + [PackageObject(ps[i], vocab)];
      objs := objs + [Obj(members)];
    }
    assert ps[..|ps|] == ps;
  }

  /** The "groups" loop. */
  method SerializeGroups(gs: seq<GroupReplay>, vocab: Vocabulary) returns (objs: seq<Json>)
    ensures objs == GroupObjects(gs, vocab)
  {
    objs := [];
    for i := 0 to |gs|
      invariant objs == GroupObjects(gs[..i], vocab)
    {
      var group := gs[i];
      var members := [("id", Str(CString(group.groupId)))];
      members := members + [("action", Str(CString(vocab.actionToString(group.action))))];
      members := members + [("reason", Str(CString(vocab.reasonToString(group.reason))))];
      members := members + [("repo_id", Str(CString(group.repoId)))];
      assert Obj(members) == GroupObject(group, vocab);
      assert GroupObjects(gs[..i + 1], vocab) == GroupObjects(gs[..i], vocab) + [GroupObject(gs[i], vocab)];
      objs := objs + [Obj(members)];
    }
    assert gs[..|gs|] == gs;
  }

  /** The "environments" loop. */
  method SerializeEnvironments(es: seq<EnvironmentReplay>, vocab: Vocabulary) returns (objs: seq<Json>)
    ensures objs == EnvironmentObjects(es, vocab)
  {
    objs := [];
    for i := 0 to |es|
      invariant objs == EnvironmentObjects(es[..i], vocab)
    {
      var environment := es[i];
      var members := [("id", Str(CString(environment.environmentId)))];
      members := members + [("action", Str(CString(vocab.actionToString(environment.action))))];
      members := members + [("repo_id", Str(CString(environment.repoId)))];
      assert Obj(members) == EnvironmentObject(environment, vocab);
      assert EnvironmentObjects(es[..i + 1], vocab) == EnvironmentObjects(es[..i], vocab) + [EnvironmentObject(es[i], vocab)];
      objs := objs + [Obj(members)];
    }
    assert es[..|es|] == es;
  }
}
