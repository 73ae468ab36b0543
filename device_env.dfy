/**
 * Device selection through the process environment (scripts/segment.py):
 * the optional GPU argument, or device 0 when CUDA is available, is written
 * to CUDA_VISIBLE_DEVICES.
 */
module DeviceEnv {
  import opened Wrappers

  const VisibleDevicesVar: string := "CUDA_VISIBLE_DEVICES"

  /** The environment after lines 29-35. */
  function SelectedEnvironment(env: map<string, string>, gpu: Option<string>, cudaAvailable: bool): (r: map<string, string>)
    ensures forall v :: v != VisibleDevicesVar ==> (v in r <==> v in env)
    ensures forall v :: v != VisibleDevicesVar && v in env ==> r[v] == env[v]
    ensures VisibleDevicesVar in r <==> gpu.Some? || cudaAvailable || VisibleDevicesVar in env
    ensures gpu.Some? ==> r[VisibleDevicesVar] == gpu.value
    ensures gpu.None? && cudaAvailable ==> r[VisibleDevicesVar] == "0"
    ensures gpu.None? && !cudaAvailable ==> r == env
  {
    match gpu
    case None => if cudaAvailable then env[VisibleDevicesVar := "0"] else env
    case Some(g) => env[VisibleDevicesVar := g]
  }

  /** Selecting again with the same arguments changes nothing. */
  lemma SelectDevicesIdempotent(env: map<string, string>, gpu: Option<string>, cudaAvailable: bool)
    ensures var once := SelectedEnvironment(env, gpu, cudaAvailable);
            SelectedEnvironment(once, gpu, cudaAvailable) == once
  {
  }

  /** An explicit GPU argument wins over whatever the environment held. */
  lemma ExplicitGpuOverrides(env: map<string, string>, g: string, cudaAvailable: bool)
    ensures SelectedEnvironment(env, Some(g), cudaAvailable) == SelectedEnvironment(env, Some(g), !cudaAvailable)
  {
  }

  /** The process environment, which the script changes in place. */
  class Environment {
    var vars: map<string, string>

    constructor (vars: map<string, string>)
      ensures this.vars == vars
    {
      this.vars := vars;
    }

    /** Lines 29-35. */
    method SelectDevices(gpu: Option<string>, cudaAvailable: bool)
      modifies this
      ensures vars == SelectedEnvironment(old(vars), gpu, cudaAvailable)
    {
      if gpu.None? {
        if cudaAvailable {
          vars := vars[VisibleDevicesVar := "0"];
        }
      } else {
        vars := vars[VisibleDevicesVar := gpu.value];
      }
    }
  }
}
