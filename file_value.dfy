/**
 * The value model of the S3 file field: the closed set of states an edit
 * session of one file attribute can be in (the `FileValue` union).
 */
module FileValues {
  import opened Wrappers

  /** A browser `File` picked in a file input; only its identity matters here. */
  type File(==)

  /** The browser's `ValidityState` snapshot of the file input. */
  type ValidityState(==)

  /** What the server returns for a stored file. */
  datatype FileData = FileData(
    url: string,
    ref: string,
    filesize: int,
    filename: string,
    originalFilename: Option<string>)

  /** The data of a `ref` state: the reference of an already stored file. */
  datatype RefData = RefData(ref: string)

  /** The data of an `upload` state: the picked file and its validity snapshot. */
  datatype UploadData = UploadData(file: File, validity: ValidityState)

  /**
   * A `FileValue`. The `remove` variant may keep the state it replaced, and
   * that state is drawn from `NonRemoveValue`, so a removal can never keep
   * another removal. The `previous` of `ref` and `upload` is any `FileValue`.
   */
  datatype FileValue =
    | NotRemove(value: NonRemoveValue)
    | Remove(previous: Option<NonRemoveValue>)

  /** The four variants other than `remove`. */
  datatype NonRemoveValue =
    | Empty
    | Ref(refData: RefData, previous: FileValue)
    | FromServer(data: FileData)
    | Upload(uploadData: UploadData, previous: FileValue)

  /** The `kind` tag of a `FileValue`. */
  datatype Kind = EmptyKind | RefKind | FromServerKind | UploadKind | RemoveKind

  function KindOf(v: FileValue): Kind
  {
    match v
    case Remove(_) => RemoveKind
    case NotRemove(Empty) => EmptyKind
    case NotRemove(Ref(_, _)) => RefKind
    case NotRemove(FromServer(_)) => FromServerKind
    case NotRemove(Upload(_, _)) => UploadKind
  }

  /** The state a value keeps for going back, if it keeps one. */
  function Previous(v: FileValue): (r: Option<FileValue>)
    ensures r.None? <==> KindOf(v) in {EmptyKind, FromServerKind} || v == Remove(None)
    ensures KindOf(v) == RemoveKind && r.Some? ==> KindOf(r.value) != RemoveKind
    ensures v.Remove? && v.previous.Some? ==> r == Some(NotRemove(v.previous.value))
    ensures KindOf(v) in {RefKind, UploadKind} ==> r == Some(v.value.previous)
  {
    match v
    case Remove(None) => None
    case Remove(Some(p)) => Some(NotRemove(p))
    case NotRemove(Empty) => None
    case NotRemove(FromServer(_)) => None
    case NotRemove(Ref(_, p)) => Some(p)
    case NotRemove(Upload(_, p)) => Some(p)
  }

  /** The number of `previous` links that can be followed from `v`. */
  function Depth(v: FileValue): nat
    decreases v
  {
    match v
    case Remove(None) => 0
    case Remove(Some(n)) => 1 + KeptDepth(n)
    case NotRemove(n) => KeptDepth(n)
  }

  /** `Depth` of a state that is not a removal. */
  function KeptDepth(n: NonRemoveValue): nat
    decreases n
  {
    match n
    case Empty => 0
    case FromServer(_) => 0
    case Ref(_, p) => 1 + Depth(p)
    case Upload(_, p) => 1 + Depth(p)
  }

  /**
   * The states met by following `previous` links from `v` until a state
   * keeps none. Along the chain no removal is directly followed by a removal.
   */
  function UndoChain(v: FileValue): (chain: seq<FileValue>)
    ensures |chain| == Depth(v) + 1 && chain[0] == v
    ensures forall i :: 0 <= i < |chain| - 1 ==> Previous(chain[i]) == Some(chain[i + 1])
    ensures Previous(chain[|chain| - 1]).None?
    ensures forall i :: 0 <= i < |chain| - 1 && KindOf(chain[i]) == RemoveKind ==>
      KindOf(chain[i + 1]) != RemoveKind
    decreases Depth(v)
  {
    match Previous(v)
    case None => [v]
    case Some(p) => [v] + UndoChain(p)
  }
}
