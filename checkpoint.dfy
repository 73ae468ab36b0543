/**
 * The checkpoint dictionary the script loads (scripts/segment.py): its
 * descriptor repair for checkpoints written before descriptors were stored,
 * and the write-back of the remapped parameter dictionary.
 */
module Checkpoints {
  import opened OrderedDict
  import KeyRemapping

  const DescriptorKey: string := "model_descriptor"
  const EpochKey: string := "epoch"
  const StateDictKey: string := "model_state_dict"
  const OptimizerKey: string := "optimizer_state_dict"
  const LossKey: string := "loss"

  /** The keys of a repaired checkpoint as it is saved, in the order it is written. */
  const SavedKeys: seq<string> := [DescriptorKey, EpochKey, StateDictKey, OptimizerKey, LossKey]

  /** A checkpoint entry: the parameter dictionary (tensors of type T), or any
      other value (X) that the script only moves around. */
  datatype Value<T, X> = Weights(weights: Dict<T>) | Other(item: X)

  /** What the descriptor repair does besides updating the checkpoint in memory. */
  datatype RepairOutcome<T, X> =
    | AlreadyDescribed
    | Saved(record: seq<(string, Value<T, X>)>)
    | KeyError(key: string)

  /** A parameter dictionary, where present, is a dictionary with distinct keys. */
  ghost predicate WellFormed<T, X>(entries: map<string, Value<T, X>>) {
    StateDictKey in entries ==> entries[StateDictKey].Weights? && Valid(entries[StateDictKey].weights)
  }

  /** The checkpoint in memory after lines 56-60: a missing descriptor is
      filled in from the configuration; nothing else changes. */
  function WithDescriptor<T, X>(entries: map<string, Value<T, X>>, fromConfig: X): (r: map<string, Value<T, X>>)
    ensures DescriptorKey in r
    ensures DescriptorKey in entries ==> r == entries
    ensures DescriptorKey !in entries ==> r[DescriptorKey] == Other(fromConfig)
    ensures forall k :: k != DescriptorKey ==> (k in r <==> k in entries)
    ensures forall k :: k != DescriptorKey && k in entries ==> r[k] == entries[k]
  {
    if DescriptorKey !in entries then entries[DescriptorKey := Other(fromConfig)] else entries
  }

  /** What lines 56-70 save: nothing when a descriptor is present; otherwise
      the five-entry record, or a KeyError for the first of the four copied
      entries that is missing (the record is built in key order). */
  function SaveOnRepair<T, X>(entries: map<string, Value<T, X>>, fromConfig: X): (o: RepairOutcome<T, X>)
    ensures o.AlreadyDescribed? <==> DescriptorKey in entries
    ensures o.Saved? <==> DescriptorKey !in entries && forall i :: 1 <= i < |SavedKeys| ==> SavedKeys[i] in entries
    ensures o.Saved? ==>
              && |o.record| == |SavedKeys|
              && (forall i :: 0 <= i < |SavedKeys| ==> o.record[i].0 == SavedKeys[i])
              && o.record[0].1 == Other(fromConfig)
              && (forall i :: 1 <= i < |SavedKeys| ==> o.record[i].1 == entries[SavedKeys[i]])
    ensures o.KeyError? ==>
              exists i :: 1 <= i < |SavedKeys| && o.key == SavedKeys[i] && o.key !in entries
                          && forall j :: 1 <= j < i ==> SavedKeys[j] in entries
  {
    assert SavedKeys[1] == EpochKey && SavedKeys[2] == StateDictKey;
    assert SavedKeys[3] == OptimizerKey && SavedKeys[4] == LossKey;
    if DescriptorKey in entries then AlreadyDescribed
    else if EpochKey !in entries then KeyError(EpochKey)
    else if StateDictKey !in entries then KeyError(StateDictKey)
    else if OptimizerKey !in entries then KeyError(OptimizerKey)
    else if LossKey !in entries then KeyError(LossKey)
    else Saved([(DescriptorKey, Other(fromConfig)), (EpochKey, entries[EpochKey]),
                (StateDictKey, entries[StateDictKey]), (OptimizerKey, entries[OptimizerKey]),
                (LossKey, entries[LossKey])])
  }

  /** The saved record, read back as a dictionary, holds the repaired
      checkpoint's values for exactly the five saved keys. */
  lemma SavedRecordMatchesCheckpoint<T, X>(entries: map<string, Value<T, X>>, fromConfig: X)
    requires SaveOnRepair(entries, fromConfig).Saved?
    ensures var record, repaired := SaveOnRepair(entries, fromConfig).record, WithDescriptor(entries, fromConfig);
            forall i :: 0 <= i < |record| ==> record[i].0 in repaired && record[i].1 == repaired[record[i].0]
  {
  }

  /** A repaired checkpoint is never repaired again. */
  lemma RepairIsOneTime<T, X>(entries: map<string, Value<T, X>>, fromConfig: X, later: X)
    ensures var repaired := WithDescriptor(entries, fromConfig);
            WithDescriptor(repaired, later) == repaired && SaveOnRepair(repaired, later).AlreadyDescribed?
  {
  }

  class Checkpoint<T, X> {
    var entries: map<string, Value<T, X>>

    constructor (entries: map<string, Value<T, X>>)
      ensures this.entries == entries
    {
      this.entries := entries;
    }

    /** Lines 56-72: fill in a missing descriptor and report what is saved. */
    method RepairDescriptor(fromConfig: X) returns (outcome: RepairOutcome<T, X>)
      modifies this
      ensures entries == WithDescriptor(old(entries), fromConfig)
      ensures outcome == SaveOnRepair(old(entries), fromConfig)
      ensures DescriptorKey in entries
    {
      if DescriptorKey !in entries {
        var descriptor := Other(fromConfig);
        entries := entries[DescriptorKey := descriptor];
        if EpochKey !in entries { return KeyError(EpochKey); }
        if StateDictKey !in entries { return KeyError(StateDictKey); }
        if OptimizerKey !in entries { return KeyError(OptimizerKey); }
        if LossKey !in entries { return KeyError(LossKey); }
        outcome := Saved([(DescriptorKey, descriptor), (EpochKey, entries[EpochKey]),
                          (StateDictKey, entries[StateDictKey]), (OptimizerKey, entries[OptimizerKey]),
                          (LossKey, entries[LossKey])]);
      } else {
        outcome := AlreadyDescribed;
      }
    }

    /** Lines 85-101: replace the parameter dictionary by its remapped copy;
        `found` is false (a KeyError) when the checkpoint has none. */
    method RemapWeights(deviceCount: nat) returns (found: bool)
      requires WellFormed(entries)
      modifies this
      ensures WellFormed(entries)
      ensures found <==> StateDictKey in old(entries)
      ensures !found ==> entries == old(entries)
      ensures found ==>
                var sd := old(entries)[StateDictKey].weights;
                entries == old(entries)[StateDictKey := Weights(KeyRemapping.Remap(deviceCount > 1, sd.keys, sd.values))]
    {
      if StateDictKey !in entries {
        return false;
      }
      var remapped := KeyRemapping.RemapStateDict(entries[StateDictKey].weights, deviceCount);
      entries := entries[StateDictKey := Weights(remapped)];
      found := true;
    }
  }
}
