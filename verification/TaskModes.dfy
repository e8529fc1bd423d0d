/** Access modes of a task, include/starpu_task.h: the macros that set and get the mode of a buffer do not agree on where
    it is. */
module TaskModes {
  import opened ImplicitDeps

  /** Chosen when StarPU is configured. */
  const NMAXBUFS: nat

  const VARIABLE_NBUFFERS: int := -1

  class Codelet {
    const nbuffers: int
    const modes: array<Mode>
    const dynModes: array?<Mode>

    constructor (nbuffers: int, modes: array<Mode>, dynModes: array?<Mode>)
      ensures this.nbuffers == nbuffers && this.modes == modes && this.dynModes == dynModes
    {
      this.nbuffers, this.modes, this.dynModes := nbuffers, modes, dynModes;
    }

    /** Buffer i has a mode here: the array in use has it, and `assert(i < STARPU_NMAXBUFS)` holds where it applies. */
    predicate Has(i: nat) {
      if dynModes != null then i < dynModes.Length else i < NMAXBUFS && i < modes.Length
    }

    function GetMode(i: nat): (m: Mode)
      requires Has(i)
      reads modes, dynModes
    {
      if dynModes != null then dynModes[i] else modes[i]
    }
  }

  class AppTask {
    const cl: Codelet
    const modes: array<Mode>
    const dynModes: array?<Mode>

    constructor (cl: Codelet, modes: array<Mode>, dynModes: array?<Mode>)
      ensures this.cl == cl && this.modes == modes && this.dynModes == dynModes
    {
      this.cl, this.modes, this.dynModes := cl, modes, dynModes;
    }

    /** Whether the codelet says how many buffers there are, and that they fit into the arrays of the structures. */
    predicate Fixed() {
      cl.nbuffers != VARIABLE_NBUFFERS
    }

    predicate Fits() {
      cl.nbuffers <= NMAXBUFS
    }

    /** Each array that one of the macros looks at has the buffer; the array inside the task is its own. */
    predicate Has(i: nat) {
      && (dynModes != null ==> i < dynModes.Length)
      && (dynModes == null && !(Fixed() && Fits()) ==> i < modes.Length)
      && (Fixed() && (Fits() || dynModes == null) ==> cl.Has(i))
      && modes != cl.modes && modes != cl.dynModes && modes != dynModes
    }

    /** The task may also use the modes of the codelet as its own. */
    predicate Shares() {
      dynModes != null && (dynModes == cl.modes || dynModes == cl.dynModes)
    }

    function GetMode(i: nat): (m: Mode)
      requires Has(i)
      reads modes, dynModes, cl.modes, cl.dynModes
    {
      if cl.nbuffers == VARIABLE_NBUFFERS || dynModes != null then
        if dynModes != null then dynModes[i] else modes[i]
      else cl.GetMode(i)
    }

    /** The configurations in which the mode set is not the one that is read. */
    predicate Mismatched() {
      Fixed() && (Fits() <==> dynModes != null)
    }

    /** Aborts when the mode differs from the codelet's and the task cannot have its own. Otherwise the mode read back is
        the one set if and only if the configuration is not mismatched or the mode was already that one; and the modes
        of the other buffers stay the same. */
    method SetMode(mode: Mode, i: nat) returns (aborted: bool)
      requires Has(i)
      modifies modes, dynModes
      ensures aborted <==> (Fixed() && Fits() && old(cl.GetMode(i)) != mode)
      ensures !aborted ==> (GetMode(i) == mode <==> !Mismatched() || old(GetMode(i)) == mode)
      ensures aborted || Mismatched() ==> GetMode(i) == old(GetMode(i))
      ensures forall j: nat {:trigger GetMode(j)} :: Has(j) && j != i ==> GetMode(j) == old(GetMode(j))
      ensures forall j: nat {:trigger cl.GetMode(j)} :: cl.Has(j) && !Shares() ==> cl.GetMode(j) == old(cl.GetMode(j))
    {
      aborted := false;
      if cl.nbuffers == VARIABLE_NBUFFERS || cl.nbuffers > NMAXBUFS {
        if dynModes != null {
          dynModes[i] := mode;
        } else {
          modes[i] := mode;
        }
      } else {
        aborted := cl.GetMode(i) != mode;
      }
    }
  }

  /** A codelet with one buffer too many and a task without modes of its own: the task's buffer 0 is set to write, and
      still reads as the mode in the codelet's own array for many buffers. */
  method SetIsLost() returns (wanted: Mode, got: Mode)
    requires NMAXBUFS > 0
    ensures wanted == {W} && got == {R}
  {
    var own, clModes := new Mode[NMAXBUFS](i => {}), new Mode[NMAXBUFS](i => {Redux});
    var dyn := new Mode[NMAXBUFS + 1](i => {R});
    var cl := new Codelet(NMAXBUFS + 1, clModes, dyn);
    var task := new AppTask(cl, own, null);
    wanted := {W};
    assert task.Mismatched() && task.GetMode(0) == {R};
    var aborted := task.SetMode(wanted, 0);
    got := task.GetMode(0);
  }
}
