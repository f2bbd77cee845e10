# S3 file field controller — Dafny model

This project models the admin-UI controller of the S3 file field, in
`packages/fields-s3/src/views/file/index.tsx`. The host form holds a
`FileValue`, which is the edit state of one file attribute:

- `empty`;
- `from-server`, holding the stored file's data;
- `ref`, which points at an already stored file;
- `upload`, holding a newly picked file;
- `remove`.

The controller holds four operations:

- `defaultValue` gives the state of a new record;
- `deserialize` turns a loaded record into an edit state;
- `validate` says whether the state may be submitted;
- `serialize` turns the state into the partial update sent to the server.

The partial update has three distinct outcomes for the field's path: the key is absent (no change), the key maps to `null` (clear the field), or the key maps to `{upload}` or `{ref}`. The model keeps all three apart. It uses `map<string, Option<FileFieldInput>>`:

- a missing key means no change;
- `None` means null;
- `Some(...)` holds the input.

Files:

- `wrappers.dfy`: the `Option` datatype.
- `file_value.dfy` (module `FileValues`): the value model.
  - `FileValue` has two constructors: `NotRemove`, which wraps one of the other four variants (a `NonRemoveValue`), and `Remove`.
  - `remove`'s optional `previous` is a `NonRemoveValue`. So "the state a removal keeps is never a removal" holds by construction, as in the TypeScript type `Exclude<FileValue, { kind: 'remove' }>`.
  - `previous` on `ref` and `upload` is any `FileValue`.
  - `KindOf` gives the `kind` tag.
  - `UndoChain` follows the `previous` links. It is proved never to show one removal directly after another, at any depth.
- `controller.dfy` (module `FileController`): the four controller operations and the lemmas about them.

The validation rules `validateRef` and `validateFile` live in `./Field`. That module is not part of this model. They are passed in as function values (`Validators`) that return `None` for "no error".

`graphqlSelection` asks for `url`, `filename`, `ref`, `filesize` and `originalFilename`. These are the same five fields that `Deserialize` copies and that make up `FileData`.

## Model

| member | source | states |
|---|---|---|
| FileValues.Previous | packages/fields-s3/src/views/file/index.tsx:53-74 | The state a value keeps is `ref.previous` / `upload.previous`, exactly the `remove.previous` when present (none when absent), or none for `empty` and `from-server`. What a removal keeps is never a removal. |
| FileValues.UndoChain | packages/fields-s3/src/views/file/index.tsx:53-74 | The chain of states met by following `previous` links. It starts at the value, is one longer than the value's link depth, and ends at a state that keeps nothing. Each entry's kept state is the next entry. A removal is never directly followed by a removal. |
| FileController.DefaultValue | packages/fields-s3/src/views/file/index.tsx:89 | The default value is of kind `empty`. |
| FileController.Deserialize | packages/fields-s3/src/views/file/index.tsx:90-103 | The result is `empty` exactly when the record has no value at the path (absent or null). Otherwise it is `from-server`, with `url`, `filename`, `ref`, `filesize` and `originalFilename` copied verbatim. |
| FileController.Validate | packages/fields-s3/src/views/file/index.tsx:104-109 | `ref` is valid iff `validateRef` on its data reports no error. `upload` is valid iff `validateFile` on its data reports no error. `empty`, `from-server` and `remove` are always valid. |
| FileController.Serialize | packages/fields-s3/src/views/file/index.tsx:110-121 | The update has at most the key `path`. The key is present iff the kind is `upload`, `ref` or `remove`. It maps to `{upload: file}`, `{ref: ref}` or null respectively. |
| FileController.DefaultValueIsNoChange | packages/fields-s3/src/views/file/index.tsx:89-120 | The default state is valid and saves as the empty update. |
| FileController.DeserializeThenSerializeIsNoOp | packages/fields-s3/src/views/file/index.tsx:90-120 | For every record, loading it and saving the result unchanged gives the empty update. The loaded state is always `empty` or `from-server`. |
| FileController.DeserializeStoredItem | packages/fields-s3/src/views/file/index.tsx:90-103 | `Deserialize` inverts `StoredItem` (the record a loadable state stands for, a reference definition with no counterpart in the source): every `empty` or `from-server` state is recovered from its record. |
| FileController.DeserializeReadsOnlyPath | packages/fields-s3/src/views/file/index.tsx:91 | Records that agree at `path` load to the same state. |
| FileController.ValidateIgnoresPrevious | packages/fields-s3/src/views/file/index.tsx:104-109 | States of the same kind and data get the same validity, whatever they keep in `previous`. |
| FileController.RejectedStateCarriesInput | packages/fields-s3/src/views/file/index.tsx:104-121 | A state that fails validation always saves as an update carrying `{upload}` or `{ref}` at the path. "No change" and "clear" are never rejected. |
| FileController.SerializeEqualIffSameEffect | packages/fields-s3/src/views/file/index.tsx:110-121 | Two states save to the same update iff they ask the same change: both none, both clear, the same ref, or the same uploaded file. So omission and null are never confused. |
| FileController.SerializeIgnoresPrevious | packages/fields-s3/src/views/file/index.tsx:110-121 | States of the same kind and data save to the same update, whatever they keep in `previous`. |
| FileController.RemoveThenUndo | packages/fields-s3/src/views/file/index.tsx:74-121 | For a loaded file, removing it saves as `{path: null}`. Its kept state is the loaded state, which saves as `{}`. The two updates differ. |
| FileController.LoadAndSaveExample | packages/fields-s3/src/views/file/index.tsx:90-120 | Concrete case: a stored `f.png` record loads to `from-server` with the same data, and saving it gives `{}`. |

## Left out

- `Cell` and `CardValue` (lines 17-43): these are React presentation. `Cell` renders `filename`; `CardValue` renders the field label and `filename`.
- `Field` and the bodies of `validateRef` / `validateFile`: these live in `./Field`, which is not part of this model. The validators are parameters.
- `File` and `ValidityState`: these are browser objects, modelled as opaque types with equality.
- `path`, `label` and `graphqlSelection` (lines 80-88): these are configuration pass-through. Only `path` is kept, since the operations use it.
- `FieldController` / `FieldControllerConfig` typing, from the hosting framework.
- FileController.Deserialize: `!value` in the source treats every JavaScript falsy value as "no file". The model's record holds at each path either `null` or a stored file, and a missing key stands for `undefined`. Other falsy values, and records missing some of the five fields, are outside this typed domain.
- FileController.DeserializeReadsOnlyPath: the record type gives every path a file value or `null`, whereas a real record holds values of other types at other paths. No result changes, because `Deserialize` reads only `path`, but the lemma is stated only over records whose every field is a file field.
- `filesize` is a JavaScript `number`; the model uses an unbounded integer, since it is only copied.
- The user transitions that build `ref`, `upload` and `remove` states are in `./Field`, which is not part of this model. Only the shape they must respect is modelled (`Previous`, `UndoChain`).
- `ref.previous` and `upload.previous` are typed as any `FileValue` (lines 60, 72), and only `remove.previous` excludes removals (line 74). The model follows these types.
- FileValues.UndoChain: no function in the source walks `previous`; the chain is a derived view of the type at lines 53-74. Dafny datatypes are finite, so a JavaScript `previous` that aliases back into a cycle is not modelled.
