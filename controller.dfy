/**
 * The field controller of the S3 file field: the pure operations a form
 * host calls to load, check and save one file attribute.
 */
module FileController {
  import opened Wrappers
  import opened FileValues

  /** The part of the field configuration the controller reads. */
  datatype FieldControllerConfig = FieldControllerConfig(path: string)

  /**
   * The field's own validation rules. Each answers `None` when it finds no
   * error and `Some(message)` otherwise.
   */
  datatype Validators = Validators(
    validateRef: RefData -> Option<string>,
    validateFile: UploadData -> Option<string>)

  /**
   * A record as the read query returns it: the value at a path is `null`
   * (`None`) or a stored file; a path missing from the map is `undefined`.
   */
  type Item = map<string, Option<FileData>>

  /** The value written under the field's path when the field changes. */
  datatype FileFieldInput = UploadInput(upload: File) | RefInput(ref: string)

  /**
   * A partial update: a path that is absent means "leave unchanged", a path
   * mapped to `None` means "set to null", otherwise the new input.
   */
  type Update = map<string, Option<FileFieldInput>>

  /** The state of the field in a record that has no value yet. */
  function DefaultValue(): (v: FileValue)
    ensures KindOf(v) == EmptyKind
  {
    NotRemove(Empty)
  }

  /** The stored file at the configured path, if the record has one. */
  predicate HasStoredFile(config: FieldControllerConfig, item: Item)
  {
    config.path in item && item[config.path].Some?
  }

  /** The edit state of a loaded record. */
  function Deserialize(config: FieldControllerConfig, item: Item): (v: FileValue)
    ensures KindOf(v) == EmptyKind <==> !HasStoredFile(config, item)
    ensures KindOf(v) == FromServerKind <==> HasStoredFile(config, item)
    ensures HasStoredFile(config, item) ==>
      var stored := item[config.path].value;
      && v.value.data.url == stored.url
      && v.value.data.filename == stored.filename
      && v.value.data.ref == stored.ref
      && v.value.data.filesize == stored.filesize
      && v.value.data.originalFilename == stored.originalFilename
  {
    if !HasStoredFile(config, item) then NotRemove(Empty)
    else
      var value := item[config.path].value;
      NotRemove(FromServer(FileData(
        url := value.url,
        filename := value.filename,
        ref := value.ref,
        filesize := value.filesize,
        originalFilename := value.originalFilename)))
  }

  /** Whether the edit state may be submitted. */
  function Validate(validators: Validators, v: FileValue): (ok: bool)
    ensures KindOf(v) == RefKind ==> (ok <==> validators.validateRef(v.value.refData).None?)
    ensures KindOf(v) == UploadKind ==> (ok <==> validators.validateFile(v.value.uploadData).None?)
    ensures KindOf(v) in {EmptyKind, FromServerKind, RemoveKind} ==> ok
  {
    if v.NotRemove? && v.value.Ref? then
      validators.validateRef(v.value.refData) == None
    else
      !(v.NotRemove? && v.value.Upload?) || validators.validateFile(v.value.uploadData) == None
  }

  /** Whether a state asks the server to change the field. */
  predicate ChangesField(v: FileValue)
  {
    KindOf(v) in {RefKind, UploadKind, RemoveKind}
  }

  /** The partial update that saves the edit state. */
  function Serialize(config: FieldControllerConfig, v: FileValue): (u: Update)
    ensures u.Keys <= {config.path}
    ensures config.path in u <==> ChangesField(v)
    ensures KindOf(v) == UploadKind ==> u[config.path] == Some(UploadInput(v.value.uploadData.file))
    ensures KindOf(v) == RefKind ==> u[config.path] == Some(RefInput(v.value.refData.ref))
    ensures KindOf(v) == RemoveKind ==> u[config.path] == None
  {
    if v.NotRemove? && v.value.Upload? then map[config.path := Some(UploadInput(v.value.uploadData.file))]
    else if v.NotRemove? && v.value.Ref? then map[config.path := Some(RefInput(v.value.refData.ref))]
    else if v.Remove? then map[config.path := None]
    else map[]
  }

  /**
   * Two states that ask the server for the same thing: both leave the field
   * alone, both clear it, both point it at the same reference or both
   * upload the same file. Kept states and validity snapshots do not matter.
   */
  predicate SameEffect(v: FileValue, w: FileValue)
  {
    match (v, w)
    case (Remove(_), Remove(_)) => true
    case (NotRemove(Ref(d, _)), NotRemove(Ref(e, _))) => d.ref == e.ref
    case (NotRemove(Upload(d, _)), NotRemove(Upload(e, _))) => d.file == e.file
    case (NotRemove(a), NotRemove(b)) =>
      (a.Empty? || a.FromServer?) && (b.Empty? || b.FromServer?)
    case _ => false
  }

  /** Two states of the same kind with the same data, whatever they keep in `previous`. */
  predicate SameKindAndData(v: FileValue, w: FileValue)
  {
    match (v, w)
    case (Remove(_), Remove(_)) => true
    case (NotRemove(Empty), NotRemove(Empty)) => true
    case (NotRemove(FromServer(d)), NotRemove(FromServer(e))) => d == e
    case (NotRemove(Ref(d, _)), NotRemove(Ref(e, _))) => d == e
    case (NotRemove(Upload(d, _)), NotRemove(Upload(e, _))) => d == e
    case _ => false
  }

  /** Reference inverse of `Deserialize`: the record the read query returns for a state it can produce. */
  function StoredItem(config: FieldControllerConfig, v: FileValue): Item
    requires KindOf(v) in {EmptyKind, FromServerKind}
  {
    if v == NotRemove(Empty) then map[] else map[config.path := Some(v.value.data)]
  }

  /** The default state is valid and saves as "no change". */
  lemma DefaultValueIsNoChange(config: FieldControllerConfig, validators: Validators)
    ensures Validate(validators, DefaultValue())
    ensures Serialize(config, DefaultValue()) == map[]
  {
  }

  /** Saving a freshly loaded state unchanged leaves the record as it is. */
  lemma DeserializeThenSerializeIsNoOp(config: FieldControllerConfig, item: Item)
    ensures Serialize(config, Deserialize(config, item)) == map[]
    ensures Deserialize(config, item) == NotRemove(Empty) || Deserialize(config, item).value.FromServer?
  {
  }

  /** Every state `Deserialize` produces is recovered from the record it stands for. */
  lemma DeserializeStoredItem(config: FieldControllerConfig, v: FileValue)
    requires KindOf(v) in {EmptyKind, FromServerKind}
    ensures Deserialize(config, StoredItem(config, v)) == v
  {
  }

  /** `Deserialize` looks only at the configured path. */
  lemma DeserializeReadsOnlyPath(config: FieldControllerConfig, item1: Item, item2: Item)
    requires config.path in item1 <==> config.path in item2
    requires config.path in item1 ==> item1[config.path] == item2[config.path]
    ensures Deserialize(config, item1) == Deserialize(config, item2)
  {
  }

  /** `Validate` judges only the top-level kind and data, never what is kept in `previous`. */
  lemma ValidateIgnoresPrevious(validators: Validators, v: FileValue, w: FileValue)
    requires SameKindAndData(v, w)
    ensures Validate(validators, v) == Validate(validators, w)
  {
  }

  /** A state `Validate` rejects always carries new data for the server. */
  lemma RejectedStateCarriesInput(config: FieldControllerConfig, validators: Validators, v: FileValue)
    requires !Validate(validators, v)
    ensures config.path in Serialize(config, v) && Serialize(config, v)[config.path].Some?
  {
  }

  /**
   * Two states save to the same update exactly when they ask the server for
   * the same thing; in particular "no change" and "remove" never coincide.
   */
  lemma SerializeEqualIffSameEffect(config: FieldControllerConfig, v: FileValue, w: FileValue)
    ensures Serialize(config, v) == Serialize(config, w) <==> SameEffect(v, w)
  {
  }

  /** `Serialize` depends only on the top-level kind and data, never on `previous`. */
  lemma SerializeIgnoresPrevious(config: FieldControllerConfig, v: FileValue, w: FileValue)
    requires SameKindAndData(v, w)
    ensures Serialize(config, v) == Serialize(config, w)
  {
  }

  /**
   * Removing a loaded file and then going back to the kept state: the
   * removal saves as "set to null", the restored state as "no change".
   */
  lemma RemoveThenUndo(config: FieldControllerConfig, item: Item)
    requires HasStoredFile(config, item)
    ensures var loaded := Deserialize(config, item);
      var removing := Remove(Some(loaded.value));
      && Serialize(config, removing) == map[config.path := None]
      && Previous(removing) == Some(loaded)
      && Serialize(config, loaded) == map[]
      && Serialize(config, removing) != Serialize(config, loaded)
  {
  }

  /** Loading a stored `f.png` gives its `from-server` state, which saves as "no change". */
  lemma LoadAndSaveExample(config: FieldControllerConfig)
    ensures var item: Item := map[config.path := Some(FileData("u", "r", 10, "f.png", Some("orig.png")))];
      && Deserialize(config, item) == NotRemove(FromServer(FileData("u", "r", 10, "f.png", Some("orig.png"))))
      && Serialize(config, Deserialize(config, item)) == map[]
  {
  }
}
