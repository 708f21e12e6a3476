/**
 * parse_transaction_replay: decoding a JSON document into a TransactionReplay.
 *
 * The decoder walks each of the arrays "environments", "groups" and "rpms" with
 * working strings declared once per array, outside the element loop. A key that
 * an element lacks leaves its working string as the previous element set it, so
 * an item's field is the value of the LATEST element up to and including its
 * own that had the key, or "" if none had. `Latest` states this, and the
 * decoding functions below are written in terms of it.
 */
module ReplayParse {
  import opened Wrappers
  import opened Json
  import opened ReplayModel

  /** split(version, ".", 2)[0]: the text before the first ".", or all of it. */
  function MajorOf(version: string): (major: string)
    ensures |major| <= |version| && major == version[..|major|]
    ensures '.' !in major
    ensures |major| < |version| ==> version[|major|] == '.'
  {
    if version == [] then []
    else if version[0] == '.' then []
    else [version[0]] + MajorOf(version[1..])
  }

  /** The working string for `key` after reading `elems` in order, starting from "". */
  function Latest(elems: seq<Json>, key: string): (s: string)
    decreases |elems|
  {
    if elems == [] then ""
    else match Member(elems[|elems| - 1], key)
      case Some(v) => StringOf(v)
      case None => Latest(elems[..|elems| - 1], key)
  }

  /** The elements read so far once element i has been read. */
  function Upto(elems: seq<Json>, i: nat): (seen: seq<Json>)
    requires i < |elems|
  {
    elems[..i + 1]
  }

  /**
   * One decoded item per element: `convert` is applied to the prefix of the array
   * that ends with that element; the first failure ends decoding.
   */
  function DecodeArray<T>(elems: seq<Json>, convert: seq<Json> -> Result<T, ReplayError>): (r: Result<seq<T>, ReplayError>)
    decreases |elems|
  {
    if elems == [] then Ok([])
    else match DecodeArray(elems[..|elems| - 1], convert)
      case Err(e) => Err(e)
      case Ok(prefix) =>
        match convert(elems)
        case Err(e) => Err(e)
        case Ok(item) => Ok(prefix + [item])
  }

  /** The environment item pushed after reading the last element of `seen`. */
  function EnvironmentItem(seen: seq<Json>, vocab: Vocabulary): (r: Result<EnvironmentReplay, ReplayError>)
  {
    var action := Latest(seen, "action");
    match vocab.actionFromString(action)
    case None => Err(UnknownAction(action))
    case Some(a) => Ok(EnvironmentReplay(a, Latest(seen, "id"), Latest(seen, "repo_id")))
  }

  /** The group item pushed after reading the last element of `seen`. */
  function GroupItem(seen: seq<Json>, vocab: Vocabulary): (r: Result<GroupReplay, ReplayError>)
  {
    var action := Latest(seen, "action");
    var reason := Latest(seen, "reason");
    match vocab.actionFromString(action)
    case None => Err(UnknownAction(action))
    case Some(a) =>
      match vocab.reasonFromString(reason)
      case None => Err(UnknownReason(reason))
      case Some(r) => Ok(GroupReplay(a, r, Latest(seen, "id"), Latest(seen, "repo_id")))
  }

  /** The package item pushed after reading the last element of `seen`. */
  function PackageItem(seen: seq<Json>, vocab: Vocabulary): (r: Result<PackageReplay, ReplayError>)
  {
    var action := Latest(seen, "action");
    var reason := Latest(seen, "reason");
    match vocab.actionFromString(action)
    case None => Err(UnknownAction(action))
    case Some(a) =>
      match vocab.reasonFromString(reason)
      case None => Err(UnknownReason(reason))
      case Some(r) =>
        Ok(PackageReplay(a, r, Latest(seen, "group_id"), Latest(seen, "nevra"),
                         Latest(seen, "package_path"), Latest(seen, "repo_id")))
  }

  /**
   * The environment item conversion as a value, so that it is the same
   * function wherever it is used; the group and package ones follow.
   */
  function EnvironmentConversion(vocab: Vocabulary): (convert: seq<Json> -> Result<EnvironmentReplay, ReplayError>)
  {
    seen => EnvironmentItem(seen, vocab)
  }

  /** The group item conversion as a value. */
  function GroupConversion(vocab: Vocabulary): (convert: seq<Json> -> Result<GroupReplay, ReplayError>)
  {
    seen => GroupItem(seen, vocab)
  }

  /** The package item conversion as a value. */
  function PackageConversion(vocab: Vocabulary): (convert: seq<Json> -> Result<PackageReplay, ReplayError>)
  {
    seen => PackageItem(seen, vocab)
  }

  function DecodeEnvironments(elems: seq<Json>, vocab: Vocabulary): (r: Result<seq<EnvironmentReplay>, ReplayError>)
  {
    DecodeArray(elems, EnvironmentConversion(vocab))
  }

  function DecodeGroups(elems: seq<Json>, vocab: Vocabulary): (r: Result<seq<GroupReplay>, ReplayError>)
  {
    DecodeArray(elems, GroupConversion(vocab))
  }

  function DecodePackages(elems: seq<Json>, vocab: Vocabulary): (r: Result<seq<PackageReplay>, ReplayError>)
  {
    DecodeArray(elems, PackageConversion(vocab))
  }

  /** The version check: the major part of a present "version" that is not VERSION_MAJOR. */
  function RejectedMajor(data: Json): (rejected: Option<string>)
  {
    match Member(data, "version")
    case None => None
    case Some(v) =>
      var major := MajorOf(StringOf(v));
      if major != VERSION_MAJOR then Some(major) else None
  }

  /** Decoding an already tokenised document: version, then environments, groups, rpms. */
  function DecodeDocument(data: Json, vocab: Vocabulary): (r: Result<TransactionReplay, ReplayError>)
  {
    if RejectedMajor(data).Some? then Err(IncompatibleMajorVersion(RejectedMajor(data).value))
    else match DecodeEnvironments(ElementsOf(Member(data, "environments")), vocab)
      case Err(e) => Err(e)
      case Ok(environments) =>
        match DecodeGroups(ElementsOf(Member(data, "groups")), vocab)
        case Err(e) => Err(e)
        case Ok(groups) =>
          match DecodePackages(ElementsOf(Member(data, "rpms")), vocab)
          case Err(e) => Err(e)
          case Ok(packages) => Ok(TransactionReplay(packages, groups, environments))
  }

  /**
   * parse_transaction_replay on text, given the tokenizer (None: the text is
   * not JSON). The emptiness test looks at the whole text, but the tokenizer is
   * handed its C string, so it sees the text only up to a NUL. json-c
   * represents a top-level `null` by no object at all, so it is rejected like
   * text that does not parse.
   */
  function Parse(text: string, tokenize: string -> Option<Json>, vocab: Vocabulary): (r: Result<TransactionReplay, ReplayError>)
  {
    if text == [] then Err(EmptyInput)
    else match tokenize(CString(text))
      case None => Err(MalformedDocument)
      case Some(Null) => Err(MalformedDocument)
      case Some(data) => DecodeDocument(data, vocab)
  }

  // ---------------------------------------------------------------------------
  // The decoder as the source runs it: one loop per array over working strings.
  // ---------------------------------------------------------------------------

  method ParseTransactionReplay(text: string, tokenize: string -> Option<Json>, vocab: Vocabulary)
    returns (r: Result<TransactionReplay, ReplayError>)
    ensures r == Parse(text, tokenize, vocab)
    ensures text == [] ==> r == Err(EmptyInput)
    ensures text != [] && (tokenize(CString(text)).None? || tokenize(CString(text)) == Some(Null)) ==>
              r == Err(MalformedDocument)
  {
    if text == [] {
      return Err(EmptyInput);
    }
    var data := tokenize(CString(text));
    if data.None? || data.value.Null? {
      return Err(MalformedDocument);
    }
    var version := Member(data.value, "version");
    if version.Some? {
      var major := MajorOf(StringOf(version.value));
      if major != VERSION_MAJOR {
        return Err(IncompatibleMajorVersion(major));
      }
    }
    var environments := ParseEnvironments(ElementsOf(Member(data.value, "environments")), vocab);
    if environments.Err? {
      return Err(environments.error);
    }
    var groups := ParseGroups(ElementsOf(Member(data.value, "groups")), vocab);
    if groups.Err? {
      return Err(groups.error);
    }
    var packages := ParsePackages(ElementsOf(Member(data.value, "rpms")), vocab);
    if packages.Err? {
      return Err(packages.error);
    }
    return Ok(TransactionReplay(packages.value, groups.value, environments.value));
  }

  /**
   * Reading one key of an array element into its working string: when the
   * element has the key, the working string becomes that member's string
   * value; otherwise it keeps what it held.
   */
  method ReadString(obj: Json, key: string, current: string) returns (s: string)
    ensures Member(obj, key).Some? ==> s == StringOf(Member(obj, key).value)
    ensures Member(obj, key).None? ==> s == current
  {
    s := current;
    var value := Member(obj, key);
    if value.Some? {
      s := StringOf(value.value);
    }
  }

  /** The "environments" loop. */
  method ParseEnvironments(elems: seq<Json>, vocab: Vocabulary) returns (r: Result<seq<EnvironmentReplay>, ReplayError>)
    ensures r == DecodeEnvironments(elems, vocab)
  {
    var action, environmentId, repoId := "", "", "";
    var items: seq<EnvironmentReplay> := [];
    var i := 0;
    while i < |elems|
      invariant 0 <= i <= |elems|
      invariant action == Latest(elems[..i], "action")
      invariant environmentId == Latest(elems[..i], "id")
      invariant repoId == Latest(elems[..i], "repo_id")
      invariant DecodeEnvironments(elems[..i], vocab) == Ok(items)
    {
      var environment := elems[i];
      action := ReadString(environment, "action", action);
      assert action == Latest(elems[..i + 1], "action") by {
        LatestStep(elems, i, "action");
      }
      environmentId := ReadString(environment, "id", environmentId);
      assert environmentId == Latest(elems[..i + 1], "id") by {
        LatestStep(elems, i, "id");
      }
      repoId := ReadString(environment, "repo_id", repoId);
      assert repoId == Latest(elems[..i + 1], "repo_id") by {
        LatestStep(elems, i, "repo_id");
      }
      var a := vocab.actionFromString(action);
      if a.None? {
        assert DecodeEnvironments(elems, vocab) == Err(UnknownAction(action)) by {
          DecodeArrayStop(elems, i, EnvironmentConversion(vocab), items);
        }
        return Err(UnknownAction(action));
      }
      var item := EnvironmentReplay(a.value, environmentId, repoId);
      assert DecodeEnvironments(elems[..i + 1], vocab) == Ok(items + [item]) by {
        DecodeArrayStep(elems, i, EnvironmentConversion(vocab), items, item);
      }
      items := items + [item];
      i := i + 1;
    }
    assert elems[..i] == elems;
    return Ok(items);
  }

  /** The "groups" loop. */
  method ParseGroups(elems: seq<Json>, vocab: Vocabulary) returns (r: Result<seq<GroupReplay>, ReplayError>)
    ensures r == DecodeGroups(elems, vocab)
  {
    var action, groupId, reason, repoId := "", "", "", "";
    var items: seq<GroupReplay> := [];
    var i := 0;
    while i < |elems|
      invariant 0 <= i <= |elems|
      invariant action == Latest(elems[..i], "action")
      invariant reason == Latest(elems[..i], "reason")
      invariant groupId == Latest(elems[..i], "id")
      invariant repoId == Latest(elems[..i], "repo_id")
      invariant DecodeGroups(elems[..i], vocab) == Ok(items)
    {
      var group := elems[i];
      action := ReadString(group, "action", action);
      assert action == Latest(elems[..i + 1], "action") by {
        LatestStep(elems, i, "action");
      }
      reason := ReadString(group, "reason", reason);
      assert reason == Latest(elems[..i + 1], "reason") by {
        LatestStep(elems, i, "reason");
      }
      groupId := ReadString(group, "id", groupId);
      assert groupId == Latest(elems[..i + 1], "id") by {
        LatestStep(elems, i, "id");
      }
      repoId := ReadString(group, "repo_id", repoId);
      assert repoId == Latest(elems[..i + 1], "repo_id") by {
        LatestStep(elems, i, "repo_id");
      }
      var a := vocab.actionFromString(action);
      if a.None? {
        assert DecodeGroups(elems, vocab) == Err(UnknownAction(action)) by {
          DecodeArrayStop(elems, i, GroupConversion(vocab), items);
        }
        return Err(UnknownAction(action));
      }
      var rs := vocab.reasonFromString(reason);
      if rs.None? {
        assert DecodeGroups(elems, vocab) == Err(UnknownReason(reason)) by {
          DecodeArrayStop(elems, i, GroupConversion(vocab), items);
        }
        return Err(UnknownReason(reason));
      }
      var item := GroupReplay(a.value, rs.value, groupId, repoId);
      assert DecodeGroups(elems[..i + 1], vocab) == Ok(items + [item]) by {
        DecodeArrayStep(elems, i, GroupConversion(vocab), items, item);
      }
      items := items + [item];
      i := i + 1;
    }
    assert elems[..i] == elems;
    return Ok(items);
  }

  /** The "rpms" loop. */
  method ParsePackages(elems: seq<Json>, vocab: Vocabulary) returns (r: Result<seq<PackageReplay>, ReplayError>)
    ensures r == DecodePackages(elems, vocab)
  {
    var action, nevra, reason, repoId, groupId, packagePath := "", "", "", "", "", "";
    var items: seq<PackageReplay> := [];
    var i := 0;
    while i < |elems|
      invariant 0 <= i <= |elems|
      invariant action == Latest(elems[..i], "action")
      invariant reason == Latest(elems[..i], "reason")
      invariant groupId == Latest(elems[..i], "group_id")
      invariant nevra == Latest(elems[..i], "nevra")
      invariant packagePath == Latest(elems[..i], "package_path")
      invariant repoId == Latest(elems[..i], "repo_id")
      invariant DecodePackages(elems[..i], vocab) == Ok(items)
    {
      var package := elems[i];
      action := ReadString(package, "action", action);
      assert action == Latest(elems[..i + 1], "action") by {
        LatestStep(elems, i, "action");
      }
      reason := ReadString(package, "reason", reason);
      assert reason == Latest(elems[..i + 1], "reason") by {
        LatestStep(elems, i, "reason");
      }
      groupId := ReadString(package, "group_id", groupId);
      assert groupId == Latest(elems[..i + 1], "group_id") by {
        LatestStep(elems, i, "group_id");
      }
      nevra := ReadString(package, "nevra", nevra);
      assert nevra == Latest(elems[..i + 1], "nevra") by {
        LatestStep(elems, i, "nevra");
      }
      packagePath := ReadString(package, "package_path", packagePath);
      assert packagePath == Latest(elems[..i + 1], "package_path") by {
        LatestStep(elems, i, "package_path");
      }
      repoId := ReadString(package, "repo_id", repoId);
      assert repoId == Latest(elems[..i + 1], "repo_id") by {
        LatestStep(elems, i, "repo_id");
      }
      var a := vocab.actionFromString(action);
      if a.None? {
        assert DecodePackages(elems, vocab) == Err(UnknownAction(action)) by {
          DecodeArrayStop(elems, i, PackageConversion(vocab), items);
        }
        return Err(UnknownAction(action));
      }
      var rs := vocab.reasonFromString(reason);
      if rs.None? {
        assert DecodePackages(elems, vocab) == Err(UnknownReason(reason)) by {
          DecodeArrayStop(elems, i, PackageConversion(vocab), items);
        }
        return Err(UnknownReason(reason));
      }
      var item := PackageReplay(a.value, rs.value, groupId, nevra, packagePath, repoId);
      assert DecodePackages(elems[..i + 1], vocab) == Ok(items + [item]) by {
        DecodeArrayStep(elems, i, PackageConversion(vocab), items, item);
      }
      items := items + [item];
      i := i + 1;
    }
    assert elems[..i] == elems;
    return Ok(items);
  }

  // ---------------------------------------------------------------------------
  // Properties of the decoder.
  // ---------------------------------------------------------------------------

  /** Reading element i updates the working string of `key` only when the element has the key. */
  lemma LatestStep(elems: seq<Json>, i: nat, key: string)
    requires i < |elems|
    ensures Latest(elems[..i + 1], key) ==
              if Member(elems[i], key).Some? then StringOf(Member(elems[i], key).value) else Latest(elems[..i], key)
  {
    assert elems[..i + 1][..i] == elems[..i];
  }

  /** A successful item extends the decoded prefix by one. */
  lemma DecodeArrayStep<T>(elems: seq<Json>, i: nat, convert: seq<Json> -> Result<T, ReplayError>, items: seq<T>, item: T)
    requires i < |elems|
    requires DecodeArray(elems[..i], convert) == Ok(items)
    requires convert(elems[..i + 1]) == Ok(item)
    ensures DecodeArray(elems[..i + 1], convert) == Ok(items + [item])
  {
    assert elems[..i + 1][..i] == elems[..i];
  }

  /** A failing item ends decoding of the whole array with its error. */
  lemma DecodeArrayStop<T>(elems: seq<Json>, i: nat, convert: seq<Json> -> Result<T, ReplayError>, items: seq<T>)
    requires i < |elems|
    requires DecodeArray(elems[..i], convert) == Ok(items)
    requires convert(elems[..i + 1]).Err?
    ensures DecodeArray(elems, convert) == Err(convert(elems[..i + 1]).error)
  {
    assert elems[..i + 1][..i] == elems[..i];
    DecodeArrayErrPrefix(elems, i + 1, convert);
  }

  /** Once the items of a prefix fail to decode, the whole array fails with the same error. */
  lemma {:induction false} DecodeArrayErrPrefix<T>(elems: seq<Json>, k: nat, convert: seq<Json> -> Result<T, ReplayError>)
    requires k <= |elems|
    requires DecodeArray(elems[..k], convert).Err?
    ensures DecodeArray(elems, convert) == DecodeArray(elems[..k], convert)
    decreases |elems| - k
  {
    if k < |elems| {
      var init := elems[..|elems| - 1];
      assert init[..k] == elems[..k];
      DecodeArrayErrPrefix(init, k, convert);
    } else {
      assert elems[..k] == elems;
    }
  }

  /**
   * Decoding yields exactly one item per element, in array order, and item i is
   * what `convert` makes of the elements up to and including element i.
   */
  lemma {:induction false} DecodeArrayItems<T>(elems: seq<Json>, convert: seq<Json> -> Result<T, ReplayError>)
    ensures DecodeArray(elems, convert).Ok? <==>
              forall i :: 0 <= i < |elems| ==> convert(Upto(elems, i)).Ok?
    ensures DecodeArray(elems, convert).Ok? ==>
              && |DecodeArray(elems, convert).value| == |elems|
              && forall i :: 0 <= i < |elems| ==>
                   convert(Upto(elems, i)) == Ok(DecodeArray(elems, convert).value[i])
    decreases |elems|
  {
    if elems != [] {
      var n := |elems|;
      var init := elems[..n - 1];
      DecodeArrayItems(init, convert);
      assert forall i :: 0 <= i < n - 1 ==> Upto(init, i) == Upto(elems, i);
      assert Upto(elems, n - 1) == elems;
    }
  }

  /** Every failure of DecodeArray is a failure of `convert` on some prefix. */
  lemma {:induction false} DecodeArrayError<T>(elems: seq<Json>, convert: seq<Json> -> Result<T, ReplayError>)
    requires DecodeArray(elems, convert).Err?
    ensures exists i :: 0 <= i < |elems| && convert(Upto(elems, i)) == Err(DecodeArray(elems, convert).error)
    decreases |elems|
  {
    var n := |elems|;
    var init := elems[..n - 1];
    assert Upto(elems, n - 1) == elems;
    if DecodeArray(init, convert).Err? {
      DecodeArrayError(init, convert);
      var i :| 0 <= i < n - 1 && convert(Upto(init, i)) == Err(DecodeArray(init, convert).error);
      assert Upto(init, i) == Upto(elems, i);
    }
  }

  /**
   * Carry-over, stated without the recursion: the working string is the value of
   * the last element that has the key, or "" when no element has it.
   */
  lemma {:induction false} LatestIsLastPresent(elems: seq<Json>, key: string, j: int)
    requires -1 <= j < |elems|
    requires j >= 0 ==> Member(elems[j], key).Some?
    requires forall k :: j < k < |elems| ==> Member(elems[k], key).None?
    ensures Latest(elems, key) == if j >= 0 then StringOf(Member(elems[j], key).value) else ""
    decreases |elems|
  {
    if elems != [] && j < |elems| - 1 {
      var init := elems[..|elems| - 1];
      LatestIsLastPresent(init, key, j);
    }
  }

  /** The major version is the whole string when it has no "." ... */
  lemma {:induction false} MajorOfUndotted(s: string)
    requires '.' !in s
    ensures MajorOf(s) == s
  {
    if s != [] {
      MajorOfUndotted(s[1..]);
    }
  }

  /** ... and otherwise the text before the first ".", whatever follows it. */
  lemma {:induction false} MajorOfDotted(major: string, minor: string)
    requires '.' !in major
    ensures MajorOf(major + "." + minor) == major
  {
    if major != [] {
      assert (major + "." + minor)[1..] == major[1..] + "." + minor;
      MajorOfDotted(major[1..], minor);
    }
  }

  /** The error of an item conversion is never a version error. */
  lemma ItemErrorsAreVocabulary(elems: seq<Json>, vocab: Vocabulary)
    ensures DecodeEnvironments(elems, vocab).Err? ==> DecodeEnvironments(elems, vocab).error.UnknownAction?
    ensures DecodeGroups(elems, vocab).Err? ==>
              DecodeGroups(elems, vocab).error.UnknownAction? || DecodeGroups(elems, vocab).error.UnknownReason?
    ensures DecodePackages(elems, vocab).Err? ==>
              DecodePackages(elems, vocab).error.UnknownAction? || DecodePackages(elems, vocab).error.UnknownReason?
  {
    if DecodeEnvironments(elems, vocab).Err? {
      DecodeArrayError(elems, EnvironmentConversion(vocab));
    }
    if DecodeGroups(elems, vocab).Err? {
      DecodeArrayError(elems, GroupConversion(vocab));
    }
    if DecodePackages(elems, vocab).Err? {
      DecodeArrayError(elems, PackageConversion(vocab));
    }
  }

  /**
   * The version gate: decoding fails with IncompatibleMajorVersion exactly when a
   * "version" member is present and its text before the first "." is not "1";
   * a document without "version" passes the gate.
   */
  lemma VersionGate(data: Json, vocab: Vocabulary)
    ensures (DecodeDocument(data, vocab).Err? && DecodeDocument(data, vocab).error.IncompatibleMajorVersion?) <==>
              (Member(data, "version").Some? && MajorOf(StringOf(Member(data, "version").value)) != VERSION_MAJOR)
  {
    ItemErrorsAreVocabulary(ElementsOf(Member(data, "environments")), vocab);
    ItemErrorsAreVocabulary(ElementsOf(Member(data, "groups")), vocab);
    ItemErrorsAreVocabulary(ElementsOf(Member(data, "rpms")), vocab);
  }

  /**
   * Any version "1.<minor>" passes the gate, and "<major>.<minor>" with another
   * major does not. The version is read as a C string, so a major part with a
   * NUL is judged by its text before the NUL.
   */
  lemma VersionGateOnVersions(data: Json, vocab: Vocabulary, major: string, minor: string)
    requires '.' !in major
    requires Member(data, "version") == Some(Str(major + "." + minor))
    ensures (DecodeDocument(data, vocab).Err? && DecodeDocument(data, vocab).error.IncompatibleMajorVersion?) <==>
              CString(major) != VERSION_MAJOR
    ensures '\0' !in major ==>
              ((DecodeDocument(data, vocab).Err? && DecodeDocument(data, vocab).error.IncompatibleMajorVersion?) <==>
               major != VERSION_MAJOR)
  {
    VersionGate(data, vocab);
    CStringFixed(major);
    assert major + "." + minor == major + ("." + minor);
    CStringAppend(major, "." + minor);
    if '\0' in major {
      var c := CString(major);
      assert '.' !in c by {
        CStringPrefix(major);
        assert forall i :: 0 <= i < |c| ==> c[i] == major[i];
      }
      MajorOfUndotted(c);
    } else {
      CStringAppend(".", minor);
      MajorOfDotted(major, CString(minor));
    }
  }

  /**
   * What a successful decode holds: per array, one item per element in order,
   * item i built from the working strings after element i; an absent array
   * gives no items.
   */
  lemma DecodedDocument(data: Json, vocab: Vocabulary)
    requires DecodeDocument(data, vocab).Ok?
    ensures var x := DecodeDocument(data, vocab).value;
            var es := ElementsOf(Member(data, "environments"));
            var gs := ElementsOf(Member(data, "groups"));
            var ps := ElementsOf(Member(data, "rpms"));
            && |x.environments| == |es|
            && (forall i :: 0 <= i < |es| ==> EnvironmentItem(Upto(es, i), vocab) == Ok(x.environments[i]))
            && |x.groups| == |gs|
            && (forall i :: 0 <= i < |gs| ==> GroupItem(Upto(gs, i), vocab) == Ok(x.groups[i]))
            && |x.packages| == |ps|
            && (forall i :: 0 <= i < |ps| ==> PackageItem(Upto(ps, i), vocab) == Ok(x.packages[i]))
  {
    DecodeArrayItems(ElementsOf(Member(data, "environments")), EnvironmentConversion(vocab));
    DecodeArrayItems(ElementsOf(Member(data, "groups")), GroupConversion(vocab));
    DecodeArrayItems(ElementsOf(Member(data, "rpms")), PackageConversion(vocab));
  }

  /**
   * A document that is not a JSON object has no members, so it passes the
   * version gate and holds no arrays: it decodes to an empty replay.
   */
  lemma NonObjectDocument(data: Json, vocab: Vocabulary)
    requires !data.Obj?
    ensures DecodeDocument(data, vocab) == Ok(TransactionReplay([], [], []))
  {
  }
}
