/**
 * Renaming of a single state-dict parameter name (scripts/segment.py, the
 * `new_k` expressions of the two remapping loops).  A network wrapped for
 * multi-device data parallelism stores its parameters under names that carry
 * the wrapper token "module."; an unwrapped network stores them without it.
 */
module StateDictKeys {

  /** The wrapper token the data-parallel wrapper puts in front of every parameter name. */
  const ModulePrefix: string := "module."

  predicate StartsWith(s: string, prefix: string) {
    |prefix| <= |s| && s[..|prefix|] == prefix
  }

  predicate HasModulePrefix(k: string) {
    StartsWith(k, ModulePrefix)
  }

  /** Multi-device rename: prefix the key unless it already carries the token. */
  function AddModulePrefix(k: string): (r: string)
    ensures HasModulePrefix(r)
    ensures HasModulePrefix(k) ==> r == k
    ensures !HasModulePrefix(k) ==> r == ModulePrefix + k
  {
    if !HasModulePrefix(k) then ModulePrefix + k else k
  }

  /** Single-device rename: drop one leading token if the key carries it. */
  function StripModulePrefix(k: string): (r: string)
    ensures HasModulePrefix(k) ==> ModulePrefix + r == k && |r| == |k| - |ModulePrefix|
    ensures !HasModulePrefix(k) ==> r == k
  {
    if HasModulePrefix(k) then k[|ModulePrefix|..] else k
  }

  /** The key a parameter is stored under after remapping; the adding rename
      is chosen exactly when more than one device is visible. */
  function Rename(multiDevice: bool, k: string): (r: string)
    ensures multiDevice && HasModulePrefix(k) ==> r == k
    ensures multiDevice && !HasModulePrefix(k) ==> r == ModulePrefix + k
    ensures !multiDevice && HasModulePrefix(k) ==> ModulePrefix + r == k
    ensures !multiDevice && !HasModulePrefix(k) ==> r == k
  {
    if multiDevice then AddModulePrefix(k) else StripModulePrefix(k)
  }

  /** Adding the prefix twice is the same as adding it once. */
  lemma AddIsIdempotent(k: string)
    ensures AddModulePrefix(AddModulePrefix(k)) == AddModulePrefix(k)
  {
  }

  /** Stripping removes exactly one leading token: "module.module.x" becomes "module.x". */
  lemma StripRemovesOneToken(x: string)
    ensures StripModulePrefix(ModulePrefix + x) == x
  {
  }

  /** Stripping is not idempotent: a doubly wrapped name loses one token per application. */
  lemma StripIsNotIdempotent()
    ensures var k := ModulePrefix + ModulePrefix + "x";
            StripModulePrefix(StripModulePrefix(k)) != StripModulePrefix(k)
  {
  }

  /** Stripping is idempotent exactly on keys that do not carry the token twice. */
  lemma StripIdempotentIff(k: string)
    ensures StripModulePrefix(StripModulePrefix(k)) == StripModulePrefix(k)
            <==> !(HasModulePrefix(k) && HasModulePrefix(k[|ModulePrefix|..]))
  {
  }

  /** Strip undoes Add on a key that did not carry the token. */
  lemma StripAfterAdd(k: string)
    requires !HasModulePrefix(k)
    ensures StripModulePrefix(AddModulePrefix(k)) == k
  {
  }

  /** Add undoes Strip on a key that carried the token exactly once; a doubly
      wrapped key loses one token for good. */
  lemma AddAfterStrip(k: string)
    requires HasModulePrefix(k)
    ensures AddModulePrefix(StripModulePrefix(k)) == k <==> !HasModulePrefix(k[|ModulePrefix|..])
  {
  }

  /** Two distinct keys collide under Add exactly when one is the other with the token in front. */
  lemma AddCollision(k1: string, k2: string)
    requires k1 != k2
    ensures AddModulePrefix(k1) == AddModulePrefix(k2)
            <==> ((k1 == ModulePrefix + k2 && !HasModulePrefix(k2))
                  || (k2 == ModulePrefix + k1 && !HasModulePrefix(k1)))
  {
  }

  /** Two distinct keys collide under Strip exactly when one is the other with the token in front. */
  lemma StripCollision(k1: string, k2: string)
    requires k1 != k2
    ensures StripModulePrefix(k1) == StripModulePrefix(k2)
            <==> ((k1 == ModulePrefix + k2 && !HasModulePrefix(k2))
                  || (k2 == ModulePrefix + k1 && !HasModulePrefix(k1)))
  {
  }
}
