/**
 `PyDLPackImage`: a publication that is handed to one DLPack consumer at most once,
 or closed.
 */
module DlpackImage {
  import opened Machine
  import opened ImageLayout
  import opened ReadLedger
  import opened Subscriber

  datatype State = Available | Consumed | Closed

  datatype Result = Capsule(handle: nat) | MappingError | ValueError | BufferError

  datatype Call = Export(consumer: bool, calls: BindCalls) | Close

  class Producer {
    const process: Process
    const slot: nat
    const image: Image
    /** The publication's device pointer. */
    const data: nat
    var state: State

    /** The publication is owned exactly while the image is available. */
    ghost predicate Valid()
      reads this, process, process.host
    {
      && process.Valid() && slot < |process.publications|
      && Typed(image) && data <= U64_MAX
      && (state.Available? <==> process.publications[slot].Some?)
    }

    constructor (process: Process, slot: nat, image: Image, data: nat)
      requires process.Valid() && slot < |process.publications| && process.publications[slot].Some?
      requires Typed(image) && data <= U64_MAX
      ensures Valid() && state == Available && this.process == process && this.slot == slot
      ensures this.image == image && this.data == data
    {
      this.process, this.slot, this.image, this.data, state := process, slot, image, data, Available;
    }

    /**
     `dlpack`: a capsule exactly when the image is available, a consumer stream is
     given, the layout can be exported and binding succeeds.  Otherwise nothing
     changes and the call may be repeated.
     */
    method Dlpack(consumer: bool, calls: BindCalls) returns (r: Result)
      requires Valid()
      modifies this`state, process, process.host`objects
      ensures Valid()
      ensures r.Capsule? <==>
        && old(state).Available? && consumer && Exportable(image, data)
        && Binds(old(process.publications)[slot].value, calls)
      ensures r.ValueError? <==> old(state).Available? && !consumer
      ensures r.BufferError? <==> old(state).Available? && consumer && !Exportable(image, data)
      ensures r.Capsule? ==>
        && state == Consumed && r.handle == |old(process.handles)|
        && process.handles == old(process.handles) + [old(process.publications)[slot]]
      ensures !r.Capsule? ==>
        && state == old(state) && process.handles == old(process.handles)
        && process.publications == old(process.publications)
      ensures process.host.objects == old(process.host.objects)
      ensures Evolves(old(process.AllBooks()), process.AllBooks())
    {
      if !state.Available? {
        return MappingError;
      }
      if !consumer {
        return ValueError;
      }
      var projection := ProjectToTensor(image, data);
      if projection.Rejected? {
        return BufferError;
      }
      var h := process.MakeBound(slot, calls);
      if h.None? {
        return MappingError;
      }
      state := Consumed;
      r := Capsule(h.value);
    }

    /** `close`: the publication's reference goes back at once. */
    method Close() returns (ok: bool)
      requires Valid()
      modifies this`state, process, process.host`objects
      ensures Valid() && ok == old(state).Available?
      ensures ok ==>
        state == Closed && process.released == old(process.released) + Listed(old(process.publications)[slot])
      ensures !ok ==> state == old(state) && process.released == old(process.released)
      ensures process.handles == old(process.handles)
      ensures Evolves(old(process.AllBooks()), process.AllBooks())
    {
      ok := state.Available?;
      if ok {
        process.DestroyPublication(slot);
        state := Closed;
      }
    }

    /** Whatever is called in whatever order, at most one capsule is handed out, and none after a close. */
    method Execute(calls: seq<Call>) returns (capsules: nat)
      requires Valid()
      modifies this`state, process, process.host`objects
      ensures Valid() && capsules <= 1
      ensures capsules == 1 <==> old(state).Available? && state.Consumed?
      ensures |process.handles| == |old(process.handles)| + capsules
      ensures !old(state).Available? ==> state == old(state)
    {
      capsules := 0;
      for k := 0 to |calls|
        invariant Valid() && capsules <= 1
        invariant capsules == 1 <==> old(state).Available? && state.Consumed?
        invariant |process.handles| == |old(process.handles)| + capsules
        invariant !old(state).Available? ==> state == old(state)
      {
        match calls[k] {
          case Export(consumer, bind) =>
            var r := Dlpack(consumer, bind);
            if r.Capsule? {
              capsules := capsules + 1;
            }
          case Close =>
            var ok := Close();
        }
      }
    }
  }
}
