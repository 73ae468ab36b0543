# Segmentation driver: checkpoint repair, state-dict key remapping, device and marker selection

This project models the self-contained logic of the segmentation driver
`scripts/segment.py`. That script loads a trained 3D U-Net checkpoint, runs
inference over a partitioned tomogram, and touches a marker file for the
workflow scheduler. Four pieces of it are modelled and proved:

- **State-dict key remapping.** A network wrapped for multi-device data
  parallelism names its parameters `module.<name>`; an unwrapped one uses
  `<name>`. With more than one visible device, every key gets the
  `module.` token unless it already has it. Otherwise one leading token is
  stripped. The renamed entries are inserted, in source order, into a fresh
  insertion-ordered dictionary (`StateDictKeys`, `OrderedDict`,
  `KeyRemapping`). Two source keys can rename to the same key (`x` and
  `module.x`). The dictionary then keeps the key at its first position and
  the value of the last write, so one parameter is silently dropped. The
  model states this exactly.
- **Checkpoint descriptor repair.** A checkpoint without a
  `model_descriptor` entry gets one derived from the configuration. A
  five-entry record is saved: the descriptor, then `epoch`,
  `model_state_dict`, `optimizer_state_dict` and `loss` copied unchanged.
  The record is built in that order, so a missing entry raises a KeyError
  for the first one missing. By then the in-memory checkpoint already
  holds the descriptor (`Checkpoints`).
- **Device selection.** A given GPU string is written to
  `CUDA_VISIBLE_DEVICES`. Without one, `"0"` is written when CUDA is
  available; otherwise the environment is left alone (`DeviceEnv`).
- **Marker path.** `.done_patterns/<model>.<tomo>.<fold>.segmentation.done`
  (`MarkerPath`). POSIX `dirname` and `basename` are modelled so that the
  directory the script creates can be stated.

The script's external queries become parameters:
`torch.cuda.is_available()` is a `bool`, `torch.cuda.device_count()` a
`nat`, `model_descriptor_from_config(config)` an opaque value, and
`str(fold)` an opaque string. Tensors and the other checkpoint values are
type parameters.

Re-running the single-device remap is not idempotent: the branch strips
only one token per pass, so `module.module.x` becomes `module.x` and then
`x` (`SingleDeviceRemapNotIdempotent`; `StripIdempotentIff` says exactly
when stripping is idempotent). A second single-device pass over a whole
dictionary is a no-op exactly when no output key still carries the token
(`SingleDeviceRemapStable`, `SingleDeviceRemapChanges`). For the same reason, adding the token back
after stripping restores a key only when the key carried the token once
(`AddAfterStrip`).

## Model

| member | source | states |
|---|---|---|
| StateDictKeys.AddModulePrefix | scripts/segment.py:89-92 | the result always carries `module.`; a key that already has it is kept, any other key gets exactly one token in front |
| StateDictKeys.StripModulePrefix | scripts/segment.py:96-99 | a key with the token loses exactly that leading token (the token followed by the result is the key); any other key is unchanged |
| StateDictKeys.Rename | scripts/segment.py:85-99 | in multi-device mode a key with the token is kept and any other key gets one token in front; in single-device mode a key with the token loses exactly one leading token and any other key is kept |
| StateDictKeys.AddIsIdempotent | scripts/segment.py:92 | adding the prefix twice equals adding it once |
| StateDictKeys.StripRemovesOneToken | scripts/segment.py:99 | stripping `module.` + x gives x, even when x itself starts with the token |
| StateDictKeys.StripIsNotIdempotent | scripts/segment.py:99 | stripping twice differs from stripping once on `module.module.x` |
| StateDictKeys.StripIdempotentIff | scripts/segment.py:99 | stripping is idempotent on a key if and only if the key does not carry the token twice |
| StateDictKeys.StripAfterAdd | scripts/segment.py:92-99 | for a key without the token, stripping the added token gives the key back |
| StateDictKeys.AddAfterStrip | scripts/segment.py:92-99 | for a key with the token, adding after stripping gives the key back if and only if the rest of the key does not start with the token |
| StateDictKeys.AddCollision | scripts/segment.py:91-93 | two distinct keys get the same multi-device key if and only if one is the other, without the token, with the token in front |
| StateDictKeys.StripCollision | scripts/segment.py:98-100 | two distinct keys get the same single-device key under the same condition |
| OrderedDict.Empty | scripts/segment.py:90 | a fresh ordered dictionary is well formed and has no keys |
| OrderedDict.Set | scripts/segment.py:93 | item assignment: the key then maps to the value and other keys keep theirs; an existing key keeps its position, a new key is appended; keys stay distinct |
| KeyRemapping.Remap | scripts/segment.py:90-93 | the dictionary built by the loop is well formed: every key listed once, exactly the listed keys have values |
| KeyRemapping.RemapStateDict | scripts/segment.py:85-101 | the loop builds exactly the left-to-right insertion of every value under its renamed key, adding the token when more than one device is visible and stripping it otherwise |
| KeyRemapping.RemapKeys | scripts/segment.py:90-94 | a key is in the output if and only if some source key renames to it |
| KeyRemapping.RemapLastWriteWins | scripts/segment.py:91-93 | every output value is the value of the last source key that renames to that output key |
| KeyRemapping.RemapFirstOccurrenceOrder | scripts/segment.py:90-93 | output keys are listed in the order in which their first source key appears |
| KeyRemapping.RemapInjective | scripts/segment.py:90-94 | without collisions the output keys are the renamed source keys in source order, each with its own source value |
| KeyRemapping.MultiDeviceKeysPrefixed | scripts/segment.py:85-93 | in multi-device mode every output key carries the token |
| KeyRemapping.RemapFixedKeys | scripts/segment.py:90-100 | a dictionary whose keys the rename leaves alone comes out of the loop unchanged |
| KeyRemapping.MultiDeviceRemapIdempotent | scripts/segment.py:89-94 | remapping a multi-device result again in multi-device mode changes nothing |
| KeyRemapping.SingleDeviceRemapStable | scripts/segment.py:96-101 | remapping a single-device result again changes nothing when no output key still carries the token |
| KeyRemapping.SingleDeviceRemapChanges | scripts/segment.py:96-101 | remapping a single-device result again changes it whenever some output key still carries the token; with SingleDeviceRemapStable, a second pass is a no-op exactly when no output key carries the token |
| KeyRemapping.StripPassChanges | scripts/segment.py:96-101 | a single-device pass over a dictionary with a key carrying the token never returns the same dictionary: the longest such key has no source |
| KeyRemapping.SingleDeviceRemapNotIdempotent | scripts/segment.py:96-101 | a one-entry dictionary `module.module.x` remaps to `module.x` and then to `x` |
| Checkpoints.WithDescriptor | scripts/segment.py:56-60 | afterwards a descriptor is present; a missing one is the configuration's; a present one is kept; no other entry changes |
| Checkpoints.SaveOnRepair | scripts/segment.py:56-70 | nothing is saved if and only if a descriptor was present; a save happens if and only if it was absent and the four other entries exist, and then the record has exactly the five keys in order, the configuration's descriptor and the four old values; otherwise the KeyError names the first missing entry |
| Checkpoints.SavedRecordMatchesCheckpoint | scripts/segment.py:59-67 | every entry of the saved record equals the repaired in-memory checkpoint's entry under that key |
| Checkpoints.RepairIsOneTime | scripts/segment.py:56-72 | a repaired checkpoint is left as it is and not saved again, whatever descriptor the configuration would give |
| Checkpoints.Checkpoint.constructor | scripts/segment.py:54 | the loaded checkpoint holds the given entries |
| Checkpoints.Checkpoint.RepairDescriptor | scripts/segment.py:56-72 | updates the checkpoint in place to WithDescriptor of its old entries and reports SaveOnRepair; a descriptor is present afterwards |
| Checkpoints.Checkpoint.RemapWeights | scripts/segment.py:85-101 | replaces the parameter dictionary by its remapped copy and changes nothing else; reports a KeyError when there is no parameter dictionary |
| DeviceEnv.SelectedEnvironment | scripts/segment.py:29-35 | a given GPU string is written to CUDA_VISIBLE_DEVICES; without one, "0" is written if CUDA is available and the environment is unchanged otherwise; no other variable changes |
| DeviceEnv.SelectDevicesIdempotent | scripts/segment.py:29-35 | selecting twice with the same arguments equals selecting once |
| DeviceEnv.ExplicitGpuOverrides | scripts/segment.py:34-35 | with a GPU string, CUDA availability does not matter |
| DeviceEnv.Environment.constructor | scripts/segment.py:33-35 | the process environment that lines 33 and 35 update holds the given variables |
| DeviceEnv.Environment.SelectDevices | scripts/segment.py:29-35 | updates the environment in place to SelectedEnvironment of its old value |
| MarkerPath.MarkerFilePath | scripts/segment.py:44-45 | the path starts with `.done_patterns/`, ends with `.segmentation.done`, and its length is that of the three names, the separators and the suffix |
| MarkerPath.Dirname | scripts/segment.py:110 | POSIX `dirname`: the result is a prefix of the path, empty only when the path has no '/'; by `SplitJoin` and `MarkerPathSplits` it is `.done_patterns` for the marker of slash-free names |
| MarkerPath.Basename | scripts/segment.py:110 | POSIX `basename`: the slash-free suffix of the path, preceded by '/' when shorter than the path; by `SplitJoin` and `MarkerPathSplits` it is the marker's file name for slash-free names |
| MarkerPath.AfterLastSlash | scripts/segment.py:110 | for the `dirname` call: the index just past the last '/', which is preceded by '/' when positive and followed by no '/' |
| MarkerPath.StripTrailingSlashes | scripts/segment.py:110 | for the `dirname` call: the result is a prefix of the input that does not end in '/', and only slashes were removed |
| MarkerPath.AfterLastSlashOfJoin | scripts/segment.py:110 | in `dir/name` with a slash-free name, the last '/' is the one after `dir` |
| MarkerPath.SplitJoin | scripts/segment.py:110 | `dirname(dir/name)` is `dir` and `basename` is `name`, for a slash-free name and a directory not ending in '/' |
| MarkerPath.MarkerPathSplits | scripts/segment.py:44-45 | with slash-free names, the dirname of the marker (the directory line 110 creates) is `.done_patterns` and its basename is model, tomogram, fold and suffix joined by dots |
| MarkerPath.MarkerPathDistinguishesFolds | scripts/segment.py:44-45 | for one model and tomogram, equal markers mean equal folds |
| MarkerPath.MarkerPathDistinguishesTomograms | scripts/segment.py:44-45 | for one model and fold, equal markers mean equal tomograms |
| MarkerPath.MarkerPathCanCollide | scripts/segment.py:44-45 | names containing dots can collide: tomogram `a.b` with fold `1` and tomogram `a` with fold `b.1` give the same marker |

## Left out

- Argument parsing and the `sys.path` extension (lines 4-13): process plumbing.
- `ast.literal_eval` of the fold (line 40): a Python-literal parser. The fold enters the model only through its printed form `str(fold)`, an opaque string.
- `Config`, `get_model_name`, `model_descriptor_from_config`, `testing_partition_path` and `get_device` (lines 38, 42, 47, 53, 59): their code is not part of this model. Their results are parameters.
- `torch.load` and `torch.save` (lines 54, 61-67): file I/O. The loaded checkpoint is the constructor's argument. The save is the `Saved` record that `RepairDescriptor` returns.
- The order of the checkpoint's top-level entries: the checkpoint is a map. The saved record's order is modelled.
- Building the network, moving it to the device, `nn.DataParallel`, `load_state_dict`, `eval` and `segment_and_write` (lines 74-87, 102-107): framework calls on tensors.
- `torch.cuda.is_available()` and `torch.cuda.device_count()`: passed in as a `bool` and a `nat`.
- Progress printing and warnings (lines 31, 57-58, 69-70, 86, 105, 107, 113): output only.
- `os.makedirs` and creating the marker file (lines 111-112): filesystem effects. Only the path and its directory are modelled.
- Checkpoints.Checkpoint.RemapWeights: requires a present `model_state_dict` entry to be a dictionary with distinct keys; a non-dictionary value there is not modelled.
- The `.format` call on line 44 applies only to the final literal. The result is the same concatenation because the other parts are concatenated afterwards. A `{fold}` inside a model or tomogram name is therefore not substituted, and the model keeps such names verbatim.
