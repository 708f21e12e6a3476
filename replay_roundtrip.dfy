/**
 * Decoding what json_serialize wrote. Both sides pass every string through a C
 * string, so a string comes back cut at its first NUL. Every key
 * json_serialize always writes is read back as written. The two keys it omits
 * when empty, package_path and group_id, are refilled by the decoder's
 * carry-over from the latest earlier package that had them. So the round trip
 * holds exactly when no string has a NUL and no package with a non-empty
 * package_path (group_id) is followed by one with an empty one.
 */
module ReplayRoundTrip {
  import opened Wrappers
  import opened Json
  import opened ReplayModel
  import opened ReplayParse
  import opened ReplaySerialize

  /** No non-empty package_path or group_id is followed by an empty one. */
  ghost predicate NoCarryHazard(ps: seq<PackageReplay>)
  {
    forall i, j :: 0 <= i < j < |ps| ==>
      && (ps[i].packagePath != [] ==> ps[j].packagePath != [])
      && (ps[i].groupId != [] ==> ps[j].groupId != [])
  }

  /** None of the package's strings holds a NUL. */
  predicate PackageNulFree(p: PackageReplay)
  {
    '\0' !in p.groupId && '\0' !in p.nevra && '\0' !in p.packagePath && '\0' !in p.repoId
  }

  /** None of the group's strings holds a NUL. */
  predicate GroupNulFree(g: GroupReplay)
  {
    '\0' !in g.groupId && '\0' !in g.repoId
  }

  /** None of the environment's strings holds a NUL. */
  predicate EnvironmentNulFree(e: EnvironmentReplay)
  {
    '\0' !in e.environmentId && '\0' !in e.repoId
  }

  /** No string anywhere in the replay holds a NUL. */
  ghost predicate NulFree(x: TransactionReplay)
  {
    && (forall i :: 0 <= i < |x.packages| ==> PackageNulFree(x.packages[i]))
    && (forall i :: 0 <= i < |x.groups| ==> GroupNulFree(x.groups[i]))
    && (forall i :: 0 <= i < |x.environments| ==> EnvironmentNulFree(x.environments[i]))
  }

  /** The objects of a prefix of the packages are the prefix of their objects. */
  lemma PackageObjectsPrefix(ps: seq<PackageReplay>, vocab: Vocabulary, i: nat)
    requires i < |ps|
    ensures Upto(PackageObjects(ps, vocab), i) == PackageObjects(ps[..i + 1], vocab)
  {
  }

  /** A word of the vocabulary is written and read back unchanged. */
  lemma WordsReadBack(vocab: Vocabulary, a: Action, r: Reason)
    requires Inverse(vocab)
    ensures StringOf(Str(CString(vocab.actionToString(a)))) == vocab.actionToString(a)
    ensures StringOf(Str(CString(vocab.reasonToString(r)))) == vocab.reasonToString(r)
  {
    CStringFixed(vocab.actionToString(a));
    CStringFixed(vocab.reasonToString(r));
  }

  /** A string written through a C string reads back as that C string. */
  lemma StringReadBack(s: string)
    ensures StringOf(Str(CString(s))) == CString(s)
  {
    CStringFixed(CString(s));
  }

  /**
   * Carry-over of one key over elements that have it exactly when their value
   * is non-empty, written up to its first NUL: the working string ends as the
   * last value, cut at a NUL, when that is non-empty; and, when no value has a
   * NUL, it is "" exactly when every value was empty.
   */
  lemma {:induction false} CarriedValue(elems: seq<Json>, key: string, vals: seq<string>)
    requires |elems| == |vals|
    requires forall i :: 0 <= i < |elems| ==>
               Member(elems[i], key) == if vals[i] != [] then Some(Str(CString(vals[i]))) else None
    ensures (forall k :: 0 <= k < |vals| ==> '\0' !in vals[k]) ==>
              (Latest(elems, key) == [] <==> forall k :: 0 <= k < |vals| ==> vals[k] == [])
    ensures vals != [] && vals[|vals| - 1] != [] ==> Latest(elems, key) == CString(vals[|vals| - 1])
    ensures vals != [] && vals[|vals| - 1] == [] ==> Latest(elems, key) == Latest(elems[..|elems| - 1], key)
    decreases |elems|
  {
    if elems != [] {
      var n := |elems|;
      var front := vals[..n - 1];
      assert forall k :: 0 <= k < n - 1 ==> front[k] == vals[k];
      CarriedValue(elems[..n - 1], key, front);
      var last := vals[n - 1];
      if last != [] {
        StringReadBack(last);
        CStringFixed(last);
        assert Latest(elems, key) == CString(last);
      } else {
        assert Latest(elems, key) == Latest(elems[..n - 1], key);
        assert (forall k :: 0 <= k < n ==> vals[k] == []) <==>
               (forall k :: 0 <= k < n - 1 ==> front[k] == []);
      }
    }
  }

  /**
   * After reading the objects of `ps`, the working package_path is the last
   * package's own one, cut at a NUL, when that is non-empty; and, when no
   * package_path has a NUL, it is "" exactly when every package had an empty
   * one.
   */
  lemma CarriedPackagePath(ps: seq<PackageReplay>, vocab: Vocabulary)
    ensures (forall k :: 0 <= k < |ps| ==> '\0' !in ps[k].packagePath) ==>
              (Latest(PackageObjects(ps, vocab), "package_path") == [] <==>
               forall k :: 0 <= k < |ps| ==> ps[k].packagePath == [])
    ensures ps != [] && ps[|ps| - 1].packagePath != [] ==>
              Latest(PackageObjects(ps, vocab), "package_path") == CString(ps[|ps| - 1].packagePath)
    ensures ps != [] && ps[|ps| - 1].packagePath == [] ==>
              Latest(PackageObjects(ps, vocab), "package_path") == Latest(PackageObjects(ps[..|ps| - 1], vocab), "package_path")
  {
    var objs := PackageObjects(ps, vocab);
    var vals := seq(|ps|, i requires 0 <= i < |ps| => ps[i].packagePath);
    forall i | 0 <= i < |ps|
      ensures Member(objs[i], "package_path") == if vals[i] != [] then Some(Str(CString(vals[i]))) else None
    {
      PackageMembers(ps[i], vocab);
    }
    CarriedValue(objs, "package_path", vals);
    assert forall k :: 0 <= k < |ps| ==> vals[k] == ps[k].packagePath;
    if ps != [] {
      assert objs[..|ps| - 1] == PackageObjects(ps[..|ps| - 1], vocab);
    }
  }

  /**
   * The same for the working group_id.
   */
  lemma CarriedGroupId(ps: seq<PackageReplay>, vocab: Vocabulary)
    ensures (forall k :: 0 <= k < |ps| ==> '\0' !in ps[k].groupId) ==>
              (Latest(PackageObjects(ps, vocab), "group_id") == [] <==>
               forall k :: 0 <= k < |ps| ==> ps[k].groupId == [])
    ensures ps != [] && ps[|ps| - 1].groupId != [] ==>
              Latest(PackageObjects(ps, vocab), "group_id") == CString(ps[|ps| - 1].groupId)
    ensures ps != [] && ps[|ps| - 1].groupId == [] ==>
              Latest(PackageObjects(ps, vocab), "group_id") == Latest(PackageObjects(ps[..|ps| - 1], vocab), "group_id")
  {
    var objs := PackageObjects(ps, vocab);
    var vals := seq(|ps|, i requires 0 <= i < |ps| => ps[i].groupId);
    forall i | 0 <= i < |ps|
      ensures Member(objs[i], "group_id") == if vals[i] != [] then Some(Str(CString(vals[i]))) else None
    {
      PackageMembers(ps[i], vocab);
    }
    CarriedValue(objs, "group_id", vals);
    assert forall k :: 0 <= k < |ps| ==> vals[k] == ps[k].groupId;
    if ps != [] {
      assert objs[..|ps| - 1] == PackageObjects(ps[..|ps| - 1], vocab);
    }
  }

  /**
   * Package i always decodes, to itself with nevra and repo_id cut at a NUL and
   * package_path and group_id taken from the working strings after it.
   */
  lemma PackageItemRoundTrip(ps: seq<PackageReplay>, vocab: Vocabulary, i: nat)
    requires Inverse(vocab)
    requires i < |ps|
    ensures var seen := Upto(PackageObjects(ps, vocab), i);
            PackageItem(seen, vocab) ==
              Ok(ps[i].(groupId := Latest(seen, "group_id"), nevra := CString(ps[i].nevra),
                        packagePath := Latest(seen, "package_path"), repoId := CString(ps[i].repoId)))
  {
    var seen := Upto(PackageObjects(ps, vocab), i);
    var p := ps[i];
    PackageObjectsPrefix(ps, vocab, i);
    PackageMembers(p, vocab);
    assert seen[i] == PackageObject(p, vocab);
    LatestIsLastPresent(seen, "action", i);
    LatestIsLastPresent(seen, "reason", i);
    LatestIsLastPresent(seen, "nevra", i);
    LatestIsLastPresent(seen, "repo_id", i);
    WordsReadBack(vocab, p.action, p.reason);
    StringReadBack(p.nevra);
    StringReadBack(p.repoId);
  }

  /** Groups always decode, and come back unchanged exactly when none of their strings has a NUL. */
  lemma GroupsRoundTrip(gs: seq<GroupReplay>, vocab: Vocabulary)
    requires Inverse(vocab)
    ensures DecodeGroups(GroupObjects(gs, vocab), vocab).Ok?
    ensures DecodeGroups(GroupObjects(gs, vocab), vocab) == Ok(gs) <==>
              forall i :: 0 <= i < |gs| ==> GroupNulFree(gs[i])
  {
    var objs := GroupObjects(gs, vocab);
    forall i | 0 <= i < |gs|
      ensures GroupConversion(vocab)(Upto(objs, i)) ==
                Ok(gs[i].(groupId := CString(gs[i].groupId), repoId := CString(gs[i].repoId)))
    {
      var seen := Upto(objs, i);
      var g := gs[i];
      GroupMembers(g, vocab);
      LatestIsLastPresent(seen, "action", i);
      LatestIsLastPresent(seen, "reason", i);
      LatestIsLastPresent(seen, "id", i);
      LatestIsLastPresent(seen, "repo_id", i);
      WordsReadBack(vocab, g.action, g.reason);
      StringReadBack(g.groupId);
      StringReadBack(g.repoId);
    }
    DecodeArrayItems(objs, GroupConversion(vocab));
    var decoded := DecodeGroups(objs, vocab).value;
    forall i | 0 <= i < |gs|
      ensures decoded[i] == gs[i] <==> GroupNulFree(gs[i])
    {
      CStringFixed(gs[i].groupId);
      CStringFixed(gs[i].repoId);
    }
    if forall i :: 0 <= i < |gs| ==> GroupNulFree(gs[i]) {
      assert decoded == gs;
    }
  }

  /** Environments always decode, and come back unchanged exactly when none of their strings has a NUL. */
  lemma EnvironmentsRoundTrip(es: seq<EnvironmentReplay>, vocab: Vocabulary)
    requires Inverse(vocab)
    ensures DecodeEnvironments(EnvironmentObjects(es, vocab), vocab).Ok?
    ensures DecodeEnvironments(EnvironmentObjects(es, vocab), vocab) == Ok(es) <==>
              forall i :: 0 <= i < |es| ==> EnvironmentNulFree(es[i])
  {
    var objs := EnvironmentObjects(es, vocab);
    forall i | 0 <= i < |es|
      ensures EnvironmentConversion(vocab)(Upto(objs, i)) ==
                Ok(es[i].(environmentId := CString(es[i].environmentId), repoId := CString(es[i].repoId)))
    {
      var seen := Upto(objs, i);
      var e := es[i];
      EnvironmentMembers(e, vocab);
      LatestIsLastPresent(seen, "action", i);
      LatestIsLastPresent(seen, "id", i);
      LatestIsLastPresent(seen, "repo_id", i);
      CStringFixed(vocab.actionToString(e.action));
      StringReadBack(e.environmentId);
      StringReadBack(e.repoId);
    }
    DecodeArrayItems(objs, EnvironmentConversion(vocab));
    var decoded := DecodeEnvironments(objs, vocab).value;
    forall i | 0 <= i < |es|
      ensures decoded[i] == es[i] <==> EnvironmentNulFree(es[i])
    {
      CStringFixed(es[i].environmentId);
      CStringFixed(es[i].repoId);
    }
    if forall i :: 0 <= i < |es| ==> EnvironmentNulFree(es[i]) {
      assert decoded == es;
    }
  }

  /** Packages always decode, one item per package, item i from the objects up to package i. */
  lemma PackagesDecode(ps: seq<PackageReplay>, vocab: Vocabulary)
    requires Inverse(vocab)
    ensures var objs := PackageObjects(ps, vocab);
            && DecodePackages(objs, vocab).Ok?
            && |DecodePackages(objs, vocab).value| == |ps|
            && forall i :: 0 <= i < |ps| ==> PackageItem(Upto(objs, i), vocab) == Ok(DecodePackages(objs, vocab).value[i])
  {
    var objs := PackageObjects(ps, vocab);
    forall i | 0 <= i < |ps|
      ensures PackageConversion(vocab)(Upto(objs, i)).Ok?
    {
      PackageItemRoundTrip(ps, vocab, i);
    }
    DecodeArrayItems(objs, PackageConversion(vocab));
  }

  /** Package i of a decode comes back unchanged when the packages up to it are NUL-free and hazard-free. */
  lemma PackageBack(ps: seq<PackageReplay>, vocab: Vocabulary, i: nat)
    requires Inverse(vocab)
    requires i < |ps|
    requires NoCarryHazard(ps) && forall k :: 0 <= k < |ps| ==> PackageNulFree(ps[k])
    ensures PackageItem(Upto(PackageObjects(ps, vocab), i), vocab) == Ok(ps[i])
  {
    var p := ps[i];
    var front := ps[..i + 1];
    var seen := Upto(PackageObjects(ps, vocab), i);
    assert forall k :: 0 <= k <= i ==> front[k] == ps[k];
    PackageItemRoundTrip(ps, vocab, i);
    assert seen == PackageObjects(front, vocab) by {
      PackageObjectsPrefix(ps, vocab, i);
    }
    assert Latest(seen, "package_path") == p.packagePath by {
      CarriedPackagePath(front, vocab);
      CStringFixed(p.packagePath);
    }
    assert Latest(seen, "group_id") == p.groupId by {
      CarriedGroupId(front, vocab);
      CStringFixed(p.groupId);
    }
    CStringFixed(p.nevra);
    CStringFixed(p.repoId);
  }


  /** Package i read back as itself has no NUL in its strings. */
  lemma PackageNulFreeAt(ps: seq<PackageReplay>, vocab: Vocabulary, i: nat)
    requires Inverse(vocab)
    requires i < |ps|
    requires PackageItem(Upto(PackageObjects(ps, vocab), i), vocab) == Ok(ps[i])
    ensures PackageNulFree(ps[i])
  {
    PackageItemRoundTrip(ps, vocab, i);
    PackageObjectsPrefix(ps, vocab, i);
    CarriedPackagePath(ps[..i + 1], vocab);
    CarriedGroupId(ps[..i + 1], vocab);
    CStringFixed(ps[i].nevra);
    CStringFixed(ps[i].repoId);
    CStringFixed(ps[i].packagePath);
    CStringFixed(ps[i].groupId);
  }

  /**
   * Package i read back as itself, after NUL-free packages, has an empty
   * package_path (group_id) only when every package up to it has one.
   */
  lemma PackageNoHazardAt(ps: seq<PackageReplay>, vocab: Vocabulary, i: nat)
    requires Inverse(vocab)
    requires i < |ps|
    requires forall k :: 0 <= k <= i ==> PackageNulFree(ps[k])
    requires PackageItem(Upto(PackageObjects(ps, vocab), i), vocab) == Ok(ps[i])
    ensures ps[i].packagePath == [] ==> forall k :: 0 <= k <= i ==> ps[k].packagePath == []
    ensures ps[i].groupId == [] ==> forall k :: 0 <= k <= i ==> ps[k].groupId == []
  {
    var front := ps[..i + 1];
    assert forall k :: 0 <= k <= i ==> front[k] == ps[k];
    PackageItemRoundTrip(ps, vocab, i);
    PackageObjectsPrefix(ps, vocab, i);
    CarriedPackagePath(front, vocab);
    CarriedGroupId(front, vocab);
  }

  /** A decode that gives the packages back shows they are NUL-free and hazard-free. */
  lemma PackagesBackOnly(ps: seq<PackageReplay>, vocab: Vocabulary)
    requires Inverse(vocab)
    requires DecodePackages(PackageObjects(ps, vocab), vocab) == Ok(ps)
    ensures NoCarryHazard(ps) && forall k :: 0 <= k < |ps| ==> PackageNulFree(ps[k])
  {
    var objs := PackageObjects(ps, vocab);
    PackagesDecode(ps, vocab);
    forall j | 0 <= j < |ps|
      ensures PackageNulFree(ps[j])
    {
      PackageNulFreeAt(ps, vocab, j);
    }
    forall i, j | 0 <= i < j < |ps|
      ensures ps[i].packagePath != [] ==> ps[j].packagePath != []
      ensures ps[i].groupId != [] ==> ps[j].groupId != []
    {
      PackageNoHazardAt(ps, vocab, j);
    }
  }

  /**
   * Packages always decode, and decode back to themselves exactly when no
   * string has a NUL and there is no carry-over hazard.
   */
  lemma PackagesRoundTrip(ps: seq<PackageReplay>, vocab: Vocabulary)
    requires Inverse(vocab)
    ensures DecodePackages(PackageObjects(ps, vocab), vocab).Ok?
    ensures DecodePackages(PackageObjects(ps, vocab), vocab) == Ok(ps) <==>
              NoCarryHazard(ps) && forall k :: 0 <= k < |ps| ==> PackageNulFree(ps[k])
  {
    var objs := PackageObjects(ps, vocab);
    PackagesDecode(ps, vocab);
    var decoded := DecodePackages(objs, vocab).value;
    if NoCarryHazard(ps) && forall k :: 0 <= k < |ps| ==> PackageNulFree(ps[k]) {
      forall i | 0 <= i < |ps|
        ensures decoded[i] == ps[i]
      {
        PackageBack(ps, vocab, i);
      }
      assert decoded == ps;
    }
    if decoded == ps {
      PackagesBackOnly(ps, vocab);
    }
  }

  /**
   * Decoding a serialised document: the version gate passes and each
   * collection is decoded from the objects written for it.
   */
  lemma DecodeSerialized(x: TransactionReplay, vocab: Vocabulary)
    requires Inverse(vocab)
    requires |x.packages| <= INT_MAX && |x.groups| <= INT_MAX && |x.environments| <= INT_MAX
    ensures SerializeDocument(x, vocab).Ok?
    ensures DecodePackages(PackageObjects(x.packages, vocab), vocab).Ok?
    ensures DecodeGroups(GroupObjects(x.groups, vocab), vocab).Ok?
    ensures DecodeEnvironments(EnvironmentObjects(x.environments, vocab), vocab).Ok?
    ensures DecodeDocument(SerializeDocument(x, vocab).value, vocab) ==
              Ok(TransactionReplay(DecodePackages(PackageObjects(x.packages, vocab), vocab).value,
                                   DecodeGroups(GroupObjects(x.groups, vocab), vocab).value,
                                   DecodeEnvironments(EnvironmentObjects(x.environments, vocab), vocab).value))
  {
    var doc := SerializeDocument(x, vocab).value;
    SerializedMembers(x, vocab);
    assert RejectedMajor(doc).None? by {
      CStringFixed("1.0");
      MajorOfDotted("1", "0");
    }
    EnvironmentsRoundTrip(x.environments, vocab);
    GroupsRoundTrip(x.groups, vocab);
    PackagesDecode(x.packages, vocab);
  }

  /**
   * Round trip: a replay that json_serialize accepts decodes back to itself
   * exactly when none of its strings has a NUL and its packages have no
   * carry-over hazard.
   */
  lemma RoundTrip(x: TransactionReplay, vocab: Vocabulary)
    requires Inverse(vocab)
    requires |x.packages| <= INT_MAX && |x.groups| <= INT_MAX && |x.environments| <= INT_MAX
    ensures SerializeDocument(x, vocab).Ok?
    ensures DecodeDocument(SerializeDocument(x, vocab).value, vocab) == Ok(x) <==>
              NoCarryHazard(x.packages) && NulFree(x)
  {
    DecodeSerialized(x, vocab);
    EnvironmentsRoundTrip(x.environments, vocab);
    GroupsRoundTrip(x.groups, vocab);
    PackagesRoundTrip(x.packages, vocab);
    var packages := DecodePackages(PackageObjects(x.packages, vocab), vocab).value;
    var groups := DecodeGroups(GroupObjects(x.groups, vocab), vocab).value;
    var environments := DecodeEnvironments(EnvironmentObjects(x.environments, vocab), vocab).value;
    assert DecodeDocument(SerializeDocument(x, vocab).value, vocab) == Ok(TransactionReplay(packages, groups, environments));
    assert TransactionReplay(packages, groups, environments) == x <==>
             packages == x.packages && groups == x.groups && environments == x.environments;
  }

  /**
   * The same on text: whatever text the document is rendered to, as long as the
   * tokenizer reads that document back from its C string.
   */
  lemma TextRoundTrip(x: TransactionReplay, vocab: Vocabulary, text: string, tokenize: string -> Option<Json>)
    requires Inverse(vocab)
    requires |x.packages| <= INT_MAX && |x.groups| <= INT_MAX && |x.environments| <= INT_MAX
    requires text != []
    requires SerializeDocument(x, vocab).Ok? ==> tokenize(CString(text)) == Some(SerializeDocument(x, vocab).value)
    ensures Parse(text, tokenize, vocab) == Ok(x) <==> NoCarryHazard(x.packages) && NulFree(x)
  {
    RoundTrip(x, vocab);
  }

  /**
   * A single package comes back with every string cut at its first NUL: a
   * nevra "foo\0bar" is read back as "foo".
   */
  lemma SinglePackageReadBack(p: PackageReplay, vocab: Vocabulary)
    requires Inverse(vocab)
    ensures DecodePackages(PackageObjects([p], vocab), vocab) ==
              Ok([p.(groupId := CString(p.groupId), nevra := CString(p.nevra),
                     packagePath := CString(p.packagePath), repoId := CString(p.repoId))])
  {
    var objs := PackageObjects([p], vocab);
    PackagesDecode([p], vocab);
    PackageItemRoundTrip([p], vocab, 0);
    PackageObjectsPrefix([p], vocab, 0);
    assert [p][..1] == [p];
    CarriedPackagePath([p], vocab);
    CarriedGroupId([p], vocab);
    assert Upto(objs, 0) == objs;
    assert Latest(objs, "package_path") == CString(p.packagePath);
    assert Latest(objs, "group_id") == CString(p.groupId);
    var decoded := DecodePackages(objs, vocab).value;
    assert decoded == [decoded[0]];
  }

  /** A nevra with a NUL in it: "foo\0bar" is read back as "foo". */
  lemma NulInNevra(a: Action, r: Reason, vocab: Vocabulary)
    requires Inverse(vocab)
    ensures DecodePackages(PackageObjects([PackageReplay(a, r, "", "foo" + "\0" + "bar", "", "fedora")], vocab), vocab) ==
              Ok([PackageReplay(a, r, "", "foo", "", "fedora")])
  {
    var p := PackageReplay(a, r, "", "foo" + "\0" + "bar", "", "fedora");
    assert CString(p.nevra) == "foo" by {
      assert p.nevra == "foo" + ("\0" + "bar");
      CStringAppend("foo", "\0" + "bar");
      CStringFixed("foo");
    }
    assert CString("fedora") == "fedora" by {
      CStringFixed("fedora");
    }
    SinglePackageReadBack(p, vocab);
  }

  /**
   * The carry-over at work: a package with a package_path followed by one
   * without; the second comes back with the first one's package_path.
   */
  lemma CarryOver(first: PackageReplay, second: PackageReplay, vocab: Vocabulary)
    requires Inverse(vocab)
    requires PackageNulFree(first) && PackageNulFree(second)
    requires first.packagePath != [] && second.packagePath == []
    requires first.groupId == [] && second.groupId == []
    ensures DecodePackages(PackageObjects([first, second], vocab), vocab) ==
              Ok([first, second.(packagePath := first.packagePath)])
  {
    var ps := [first, second];
    var objs := PackageObjects(ps, vocab);
    PackagesDecode(ps, vocab);
    var decoded := DecodePackages(objs, vocab).value;
    assert decoded[0] == first by {
      PackageBack([first], vocab, 0);
      assert PackageObjects([first], vocab) == Upto(objs, 0);
    }
    assert decoded[1] == second.(packagePath := first.packagePath) by {
      PackageItemRoundTrip(ps, vocab, 1);
      assert Upto(objs, 1) == objs;
      assert Latest(objs, "package_path") == first.packagePath by {
        CarriedPackagePath(ps, vocab);
        assert ps[..1] == [first];
        CarriedPackagePath([first], vocab);
        CStringFixed(first.packagePath);
      }
      assert Latest(objs, "group_id") == [] by {
        CarriedGroupId(ps, vocab);
      }
      CStringFixed(second.nevra);
      CStringFixed(second.repoId);
    }
    assert decoded == [first, second.(packagePath := first.packagePath)];
  }

  /** The same on a whole document holding the two packages. */
  lemma CarryOverDocument(first: PackageReplay, second: PackageReplay, vocab: Vocabulary)
    requires Inverse(vocab)
    requires PackageNulFree(first) && PackageNulFree(second)
    requires first.packagePath != [] && second.packagePath == []
    requires first.groupId == [] && second.groupId == []
    ensures var x := TransactionReplay([first, second], [], []);
            && SerializeDocument(x, vocab).Ok?
            && DecodeDocument(SerializeDocument(x, vocab).value, vocab) ==
                 Ok(TransactionReplay([first, second.(packagePath := first.packagePath)], [], []))
  {
    var x := TransactionReplay([first, second], [], []);
    assert DecodePackages(PackageObjects(x.packages, vocab), vocab) ==
             Ok([first, second.(packagePath := first.packagePath)]) by {
      CarryOver(first, second, vocab);
    }
    assert DecodeGroups(GroupObjects(x.groups, vocab), vocab) == Ok([]) by {
      GroupsRoundTrip([], vocab);
    }
    assert DecodeEnvironments(EnvironmentObjects(x.environments, vocab), vocab) == Ok([]) by {
      EnvironmentsRoundTrip([], vocab);
    }
    DecodeSerialized(x, vocab);
  }

  /**
   * An instance: a local package followed by a repository package; the second
   * comes back with the local one's path.
   */
  lemma CarryOverExample(a: Action, r: Reason, vocab: Vocabulary)
    requires Inverse(vocab)
    ensures var local := PackageReplay(a, r, "", "foo-1-1.noarch", "/tmp/foo.rpm", "@commandline");
            var remote := PackageReplay(a, r, "", "bar-2-1.noarch", "", "fedora");
            var x := TransactionReplay([local, remote], [], []);
            && SerializeDocument(x, vocab).Ok?
            && DecodeDocument(SerializeDocument(x, vocab).value, vocab)
               == Ok(TransactionReplay([local, remote.(packagePath := "/tmp/foo.rpm")], [], []))
  {
    var local := PackageReplay(a, r, "", "foo-1-1.noarch", "/tmp/foo.rpm", "@commandline");
    var remote := PackageReplay(a, r, "", "bar-2-1.noarch", "", "fedora");
    assert PackageNulFree(local) && PackageNulFree(remote);
    CarryOverDocument(local, remote, vocab);
  }
}
