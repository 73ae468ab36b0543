/**
 * The state-dict key remapping of scripts/segment.py: the loop that walks the
 * checkpoint's `model_state_dict` in order and inserts every value, under its
 * renamed key, into a fresh ordered dictionary.
 */
module KeyRemapping {
  import opened StateDictKeys
  import opened OrderedDict

  /** The renamed key of every source key, in source order. */
  function Renamed(multiDevice: bool, ks: seq<string>): seq<string> {
    seq(|ks|, i requires 0 <= i < |ks| => Rename(multiDevice, ks[i]))
  }

  /** Position of the first occurrence of `x` in `s`. */
  function FirstIndex(s: seq<string>, x: string): (i: nat)
    requires x in s
    ensures i < |s| && s[i] == x
    ensures forall j :: 0 <= j < i ==> s[j] != x
  {
    if s[0] == x then 0 else 1 + FirstIndex(s[1..], x)
  }

  /** Position of the last occurrence of `x` in `s`. */
  function LastIndex(s: seq<string>, x: string): (i: nat)
    requires x in s
    ensures i < |s| && s[i] == x
    ensures forall j :: i < j < |s| ==> s[j] != x
  {
    if s[|s| - 1] == x then |s| - 1 else LastIndex(s[..|s| - 1], x)
  }

  /** The dictionary the loop has built after visiting the source keys `ks`
      (whose values are in `vals`): one insertion per key, in order. */
  function Remap<V>(multiDevice: bool, ks: seq<string>, vals: map<string, V>): (d: Dict<V>)
    requires forall i :: 0 <= i < |ks| ==> ks[i] in vals
    ensures Valid(d)
  {
    if ks == [] then Empty()
    else
      var last := ks[|ks| - 1];
      Set(Remap(multiDevice, ks[..|ks| - 1], vals), Rename(multiDevice, last), vals[last])
  }

  /** Lines 85-101: the branch taken depends only on whether more than one
      device is visible; the loop inserts each value under its renamed key. */
  method RemapStateDict<V>(stateDict: Dict<V>, deviceCount: nat) returns (remapped: Dict<V>)
    requires Valid(stateDict)
    ensures remapped == Remap(deviceCount > 1, stateDict.keys, stateDict.values)
  {
    var multiDevice := deviceCount > 1;
    remapped := Empty();
    for i := 0 to |stateDict.keys|
      invariant remapped == Remap(multiDevice, stateDict.keys[..i], stateDict.values)
    {
      var k := stateDict.keys[i];
      var newKey := if multiDevice then AddModulePrefix(k) else StripModulePrefix(k);
      assert stateDict.keys[..i + 1][..i] == stateDict.keys[..i];
      remapped := Set(remapped, newKey, stateDict.values[k]);
    }
    assert stateDict.keys[..|stateDict.keys|] == stateDict.keys;
  }

  lemma RenamedSnoc(multiDevice: bool, ks: seq<string>)
    requires |ks| > 0
    ensures Renamed(multiDevice, ks)
            == Renamed(multiDevice, ks[..|ks| - 1]) + [Rename(multiDevice, ks[|ks| - 1])]
  {
  }

  /** The output keys are exactly the renamed source keys. */
  lemma {:induction false} RemapKeys<V>(multiDevice: bool, ks: seq<string>, vals: map<string, V>)
    requires forall i :: 0 <= i < |ks| ==> ks[i] in vals
    ensures forall k :: k in Remap(multiDevice, ks, vals).values <==> k in Renamed(multiDevice, ks)
  {
    if ks != [] {
      RemapKeys(multiDevice, ks[..|ks| - 1], vals);
      RenamedSnoc(multiDevice, ks);
    }
  }

  /** `d` holds, under every renamed key of `ks`, the value of the last source key renaming to it. */
  ghost predicate LastWriteWins<V>(d: Dict<V>, r: seq<string>, ks: seq<string>, vals: map<string, V>)
    requires |r| == |ks|
    requires forall i :: 0 <= i < |ks| ==> ks[i] in vals
  {
    forall k :: k in d.values ==> k in r && d.values[k] == vals[ks[LastIndex(r, k)]]
  }

  /** On a collision the value is that of the last source key mapping to the output key. */
  lemma {:induction false} RemapLastWriteWins<V>(multiDevice: bool, ks: seq<string>, vals: map<string, V>)
    requires forall i :: 0 <= i < |ks| ==> ks[i] in vals
    ensures LastWriteWins(Remap(multiDevice, ks, vals), Renamed(multiDevice, ks), ks, vals)
  {
    if ks != [] {
      var n := |ks|;
      var ks' := ks[..n - 1];
      RemapLastWriteWins(multiDevice, ks', vals);
      RenamedSnoc(multiDevice, ks);
      LastWriteStep(Remap(multiDevice, ks', vals), Renamed(multiDevice, ks'), Rename(multiDevice, ks[n - 1]), ks, vals);
    }
  }

  /** One insertion keeps "last write wins" for the extended source sequence. */
  lemma LastWriteStep<V>(d': Dict<V>, r': seq<string>, y: string, ks: seq<string>, vals: map<string, V>)
    requires |ks| > 0 && |r'| + 1 == |ks|
    requires forall i :: 0 <= i < |ks| ==> ks[i] in vals
    requires Valid(d')
    requires LastWriteWins(d', r', ks[..|ks| - 1], vals)
    ensures LastWriteWins(Set(d', y, vals[ks[|ks| - 1]]), r' + [y], ks, vals)
  {
    var n := |ks|;
    var r := r' + [y];
    var d := Set(d', y, vals[ks[n - 1]]);
    forall k | k in d.values
      ensures k in r && d.values[k] == vals[ks[LastIndex(r, k)]]
    {
      if k != y {
        var i, i' := LastIndex(r, k), LastIndex(r', k);
        assert r[i'] == k;
        assert i == i';
        assert ks[i] == ks[..n - 1][i];
      }
    }
  }

  lemma FirstIndexSnoc(s: seq<string>, y: string, x: string)
    requires x in s + [y]
    ensures x in s ==> FirstIndex(s + [y], x) == FirstIndex(s, x)
    ensures x !in s ==> FirstIndex(s + [y], x) == |s|
  {
    var i := FirstIndex(s + [y], x);
    if x in s {
      var i' := FirstIndex(s, x);
      assert (s + [y])[i'] == x;
    }
  }

  /** Every key of `keys` occurs in `r`, and the keys are listed in the order
      of their first occurrence in `r`. */
  ghost predicate InFirstOccurrenceOrder(keys: seq<string>, r: seq<string>) {
    forall p, q :: 0 <= p < q < |keys| ==>
      keys[p] in r && keys[q] in r && FirstIndex(r, keys[p]) < FirstIndex(r, keys[q])
  }

  /** Output keys appear in the order in which their first source key appears. */
  lemma {:induction false} RemapFirstOccurrenceOrder<V>(multiDevice: bool, ks: seq<string>, vals: map<string, V>)
    requires forall i :: 0 <= i < |ks| ==> ks[i] in vals
    ensures InFirstOccurrenceOrder(Remap(multiDevice, ks, vals).keys, Renamed(multiDevice, ks))
  {
    if ks != [] {
      var n := |ks|;
      var ks' := ks[..n - 1];
      RemapFirstOccurrenceOrder(multiDevice, ks', vals);
      RemapKeys(multiDevice, ks', vals);
      RenamedSnoc(multiDevice, ks);
      KeyOrderStep(Remap(multiDevice, ks', vals), Rename(multiDevice, ks[n - 1]),
                   Renamed(multiDevice, ks'), Remap(multiDevice, ks, vals).keys);
    }
  }

  /** One insertion keeps the keys ordered by first occurrence. */
  lemma KeyOrderStep<V>(d': Dict<V>, y: string, r': seq<string>, keys: seq<string>)
    requires Valid(d')
    requires forall x :: x in d'.values <==> x in r'
    requires InFirstOccurrenceOrder(d'.keys, r')
    requires y in d'.values ==> keys == d'.keys
    requires y !in d'.values ==> keys == d'.keys + [y]
    ensures InFirstOccurrenceOrder(keys, r' + [y])
  {
    forall p, q | 0 <= p < q < |keys|
      ensures keys[p] in r' + [y] && keys[q] in r' + [y]
      ensures FirstIndex(r' + [y], keys[p]) < FirstIndex(r' + [y], keys[q])
    {
      assert keys[p] == d'.keys[p] && keys[p] in r';
      FirstIndexSnoc(r', y, keys[p]);
      if q < |d'.keys| {
        assert keys[q] == d'.keys[q] && keys[q] in r';
        FirstIndexSnoc(r', y, keys[q]);
      } else {
        assert keys[q] == y && y !in r';
        FirstIndexSnoc(r', y, keys[q]);
      }
    }
  }

  /** `d` lists the renamed keys of `ks` in order, each with its own source value. */
  ghost predicate ListsRenamedInOrder<V>(d: Dict<V>, multiDevice: bool, ks: seq<string>, vals: map<string, V>)
    requires forall i :: 0 <= i < |ks| ==> ks[i] in vals
  {
    && d.keys == Renamed(multiDevice, ks)
    && forall i :: 0 <= i < |ks| ==> d.keys[i] in d.values && d.values[d.keys[i]] == vals[ks[i]]
  }

  /** When no two source keys rename to the same key, the output lists every
      renamed key, in source order, with its own value. */
  lemma {:induction false} RemapInjective<V>(multiDevice: bool, ks: seq<string>, vals: map<string, V>)
    requires forall i :: 0 <= i < |ks| ==> ks[i] in vals
    requires forall i, j :: 0 <= i < j < |ks| ==> Rename(multiDevice, ks[i]) != Rename(multiDevice, ks[j])
    ensures ListsRenamedInOrder(Remap(multiDevice, ks, vals), multiDevice, ks, vals)
  {
    if ks != [] {
      var n := |ks|;
      var ks' := ks[..n - 1];
      RemapInjective(multiDevice, ks', vals);
      RenamedSnoc(multiDevice, ks);
      InjectiveStep(Remap(multiDevice, ks', vals), multiDevice, ks, vals);
    }
  }

  /** One insertion of a fresh renamed key extends the listing by that key. */
  lemma InjectiveStep<V>(d': Dict<V>, multiDevice: bool, ks: seq<string>, vals: map<string, V>)
    requires |ks| > 0
    requires forall i :: 0 <= i < |ks| ==> ks[i] in vals
    requires forall i, j :: 0 <= i < j < |ks| ==> Rename(multiDevice, ks[i]) != Rename(multiDevice, ks[j])
    requires Valid(d') && ListsRenamedInOrder(d', multiDevice, ks[..|ks| - 1], vals)
    ensures ListsRenamedInOrder(Set(d', Rename(multiDevice, ks[|ks| - 1]), vals[ks[|ks| - 1]]), multiDevice, ks, vals)
  {
    var n := |ks|;
    var r' := Renamed(multiDevice, ks[..n - 1]);
    var y := Rename(multiDevice, ks[n - 1]);
    RenamedSnoc(multiDevice, ks);
    assert y !in d'.values by {
      forall i | 0 <= i < n - 1 ensures d'.keys[i] != y {
        assert d'.keys[i] == Rename(multiDevice, ks[i]);
      }
    }
    var d := Set(d', y, vals[ks[n - 1]]);
    assert d.keys == d'.keys + [y];
    forall i | 0 <= i < n
      ensures d.keys[i] in d.values && d.values[d.keys[i]] == vals[ks[i]]
    {
      if i < n - 1 {
        assert d.keys[i] == d'.keys[i] && d'.keys[i] != y;
        assert ks[i] == ks[..n - 1][i];
      }
    }
  }

  /** In multi-device mode every output key carries the wrapper token. */
  lemma MultiDeviceKeysPrefixed<V>(ks: seq<string>, vals: map<string, V>)
    requires forall i :: 0 <= i < |ks| ==> ks[i] in vals
    ensures forall k :: k in Remap(true, ks, vals).keys ==> HasModulePrefix(k)
  {
    RemapKeys(true, ks, vals);
  }

  /** A dictionary whose keys the rename leaves alone comes through the loop unchanged. */
  lemma RemapFixedKeys<V>(multiDevice: bool, d: Dict<V>)
    requires Valid(d)
    requires forall k :: k in d.keys ==> Rename(multiDevice, k) == k
    ensures Remap(multiDevice, d.keys, d.values) == d
  {
    forall i | 0 <= i < |d.keys| ensures Rename(multiDevice, d.keys[i]) == d.keys[i] {
      assert d.keys[i] in d.keys;
    }
    assert Renamed(multiDevice, d.keys) == d.keys;
    RemapInjective(multiDevice, d.keys, d.values);
    var e := Remap(multiDevice, d.keys, d.values);
    assert e.keys == d.keys;
    forall k | k in e.values ensures k in d.values && e.values[k] == d.values[k] {
      var i :| 0 <= i < |d.keys| && d.keys[i] == k;
      assert e.values[e.keys[i]] == d.values[d.keys[i]];
    }
    forall k | k in d.values ensures k in e.values {
      assert k in e.keys;
    }
    assert e.values == d.values;
  }

  /** Remapping a multi-device result again in multi-device mode changes nothing. */
  lemma MultiDeviceRemapIdempotent<V>(ks: seq<string>, vals: map<string, V>)
    requires forall i :: 0 <= i < |ks| ==> ks[i] in vals
    ensures var d := Remap(true, ks, vals);
            Remap(true, d.keys, d.values) == d
  {
    MultiDeviceKeysPrefixed(ks, vals);
    RemapFixedKeys(true, Remap(true, ks, vals));
  }

  /** Remapping a single-device result again in single-device mode changes
      nothing when no output key still carries the token. */
  lemma SingleDeviceRemapStable<V>(ks: seq<string>, vals: map<string, V>)
    requires forall i :: 0 <= i < |ks| ==> ks[i] in vals
    requires forall k :: k in Remap(false, ks, vals).keys ==> !HasModulePrefix(k)
    ensures var d := Remap(false, ks, vals);
            Remap(false, d.keys, d.values) == d
  {
    RemapFixedKeys(false, Remap(false, ks, vals));
  }

  /** The longest key of `ks` that carries the token. */
  ghost function LongestPrefixed(ks: seq<string>): (m: string)
    requires exists i :: 0 <= i < |ks| && HasModulePrefix(ks[i])
    ensures m in ks && HasModulePrefix(m)
    ensures forall i :: 0 <= i < |ks| && HasModulePrefix(ks[i]) ==> |ks[i]| <= |m|
  {
    var last := ks[|ks| - 1];
    if !exists i :: 0 <= i < |ks| - 1 && HasModulePrefix(ks[i]) then last
    else
      var m' := LongestPrefixed(ks[..|ks| - 1]);
      if HasModulePrefix(last) && |last| > |m'| then last else m'
  }

  /** No key strips to the longest key that carries the token. */
  lemma LongestPrefixedNotStripped(keys: seq<string>)
    requires exists i :: 0 <= i < |keys| && HasModulePrefix(keys[i])
    ensures LongestPrefixed(keys) !in Renamed(false, keys)
  {
    var m := LongestPrefixed(keys);
    forall i | 0 <= i < |keys| ensures Renamed(false, keys)[i] != m {
      if HasModulePrefix(keys[i]) {
        assert |keys[i]| <= |m|;
        assert |StripModulePrefix(keys[i])| < |keys[i]|;
      } else {
        assert StripModulePrefix(keys[i]) == keys[i];
      }
    }
  }

  /** Remapping a single-device result again in single-device mode changes
      it whenever some output key still carries the token: the longest such
      key disappears. */
  lemma SingleDeviceRemapChanges<V>(ks: seq<string>, vals: map<string, V>)
    requires forall i :: 0 <= i < |ks| ==> ks[i] in vals
    requires exists k :: k in Remap(false, ks, vals).keys && HasModulePrefix(k)
    ensures var d := Remap(false, ks, vals);
            Remap(false, d.keys, d.values) != d
  {
    var d := Remap(false, ks, vals);
    var k :| k in d.keys && HasModulePrefix(k);
    var i0 :| 0 <= i0 < |d.keys| && d.keys[i0] == k;
    StripPassChanges(d);
  }

  lemma StripPassChanges<V>(d: Dict<V>)
    requires Valid(d)
    requires exists i :: 0 <= i < |d.keys| && HasModulePrefix(d.keys[i])
    ensures Remap(false, d.keys, d.values) != d
  {
    var m := LongestPrefixed(d.keys);
    LongestPrefixedNotStripped(d.keys);
    RemapKeys(false, d.keys, d.values);
    assert m in d.values;
    assert m !in Remap(false, d.keys, d.values).values;
  }

  /** Single-device remapping is not idempotent: a doubly wrapped parameter
      name loses one token on every pass. */
  lemma SingleDeviceRemapNotIdempotent<V>(v: V)
    ensures var d := Remap(false, [ModulePrefix + ModulePrefix + "x"], map[ModulePrefix + ModulePrefix + "x" := v]);
            d.keys == [ModulePrefix + "x"]
            && Remap(false, d.keys, d.values).keys == ["x"]
  {
    var k := ModulePrefix + ModulePrefix + "x";
    assert k == ModulePrefix + (ModulePrefix + "x");
    StripRemovesOneToken(ModulePrefix + "x");
    StripRemovesOneToken("x");
    assert [k][..0] == [];
    assert [ModulePrefix + "x"][..0] == [];
  }
}
