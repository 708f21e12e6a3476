/**
 * The in-memory transaction replay of libdnf5: three ordered collections of
 * items, each recording the forced action (and, except for environments, the
 * reason) of one transaction item.
 */
module ReplayModel {
  import opened Wrappers

  /** Transaction item action (install, upgrade, ...); its members are defined outside this model. */
  type Action(!new)

  /** Transaction item reason (user, dependency, group, ...); defined outside this model. */
  type Reason(!new)

  /**
   * transaction_item_action_{to,from}_string and transaction_item_reason_{to,from}_string.
   * Their definitions are not part of this model; `None` from a `from` conversion
   * stands for the error it raises on a string it does not know.
   */
  datatype Vocabulary = Vocabulary(
    actionToString: Action -> string,
    actionFromString: string -> Option<Action>,
    reasonToString: Reason -> string,
    reasonFromString: string -> Option<Reason>)

  /**
   * The words written for actions and reasons are C strings (no NUL), and
   * reading back the word written for any action or reason gives it back.
   */
  ghost predicate Inverse(v: Vocabulary)
  {
    && (forall a :: '\0' !in v.actionToString(a) && v.actionFromString(v.actionToString(a)) == Some(a))
    && (forall r :: '\0' !in v.reasonToString(r) && v.reasonFromString(v.reasonToString(r)) == Some(r))
  }

  datatype PackageReplay = PackageReplay(
    action: Action,
    reason: Reason,
    groupId: string,
    nevra: string,
    packagePath: string,
    repoId: string)

  datatype GroupReplay = GroupReplay(
    action: Action,
    reason: Reason,
    groupId: string,
    repoId: string)

  datatype EnvironmentReplay = EnvironmentReplay(
    action: Action,
    environmentId: string,
    repoId: string)

  datatype TransactionReplay = TransactionReplay(
    packages: seq<PackageReplay>,
    groups: seq<GroupReplay>,
    environments: seq<EnvironmentReplay>)

  datatype Collection = Packages | Groups | Environments

  /** The ways decoding and encoding can fail. */
  datatype ReplayError =
    | EmptyInput                          // the serialized input is ""
    | MalformedDocument                   // the JSON tokenizer rejected the text
    | IncompatibleMajorVersion(found: string)
    | UnknownAction(raw: string)          // the action conversion rejected `raw`
    | UnknownReason(raw: string)          // the reason conversion rejected `raw`
    | TooLarge(collection: Collection, count: nat)

  /** The format version written by the encoder and the major one the decoder accepts. */
  const VERSION_MAJOR: string := "1"
  const VERSION_MINOR: string := "0"

  /** Largest value of a C `int`: a collection must fit in one to be serialised. */
  const INT_MAX: nat := 0x7fff_ffff
}
