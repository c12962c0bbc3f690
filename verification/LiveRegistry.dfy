/** The registry as objects: an entry with two growing buffers and a flag, shared
    between the dictionary and the execution that owns it. Every method is one
    critical section, and moves the transition system by the action of its name. */
module LiveRegistry {
  import opened LiveProtocol
  import opened Wrappers

  /** An entry of `LIVE`, or the private buffers of an execution that did not register. */
  class Entry {
    var out: Bytes
    var err: Bytes
    var done: bool
    ghost const index: nat
    ghost const id: Option<string>
    ghost var phase: Phase
    ghost var record: Option<Record>

    constructor (ghost index: nat, ghost id: Option<string>)
      ensures this.index == index && this.id == id && out == [] && err == [] && !done && phase == Running && record == None
    {
      this.index, this.id := index, id;
      out, err, done := [], [], false;
      phase, record := Running, None;
    }

    ghost function Abs(): Exec
      reads this
    {
      Exec(id, out, err, done, phase, record)
    }
  }

  class Registry {
    var live: map<string, Entry>
    /** Every execution's entry, in the order they started. */
    ghost var entries: seq<Entry>

    constructor ()
      ensures Valid() && Abs() == INITIAL
    {
      live := map[];
      entries := [];
    }

    ghost predicate Valid()
      reads this
    {
      && (forall i :: 0 <= i < |entries| ==> entries[i].index == i)
      && (forall id :: id in live ==> Holds(live[id]))
    }

    ghost predicate Holds(e: Entry)
      reads this
    {
      e.index < |entries| && entries[e.index] == e
    }

    ghost function Abs(): State
      requires Valid()
      reads this, entries
    {
      State(seq(|entries|, i requires 0 <= i < |entries| reads this, entries => entries[i].Abs()),
            map id | id in live :: live[id].index)
    }

    /** Registration: the entry replaces whatever was there under the id. */
    method Start(execId: Option<string>) returns (e: Entry)
      requires Valid()
      modifies this
      ensures Valid() && fresh(e) && entries == old(entries) + [e]
      ensures Abs() == Step(old(Abs()), Action.Start(execId))
      ensures e.id == (if execId.Some? && IsIdText(execId.value) then execId else None)
      ensures e.out == [] && e.err == [] && !e.done
      ensures live == if e.id.Some? then old(live)[e.id.value := e] else old(live)
    {
      if execId.Some? {
        LiveIdIs(execId.value);
      }
      hide IsLiveId, IsIdText;
      var id := Registered(execId);
      e := new Entry(|entries|, id);
      if id.Some? {
        live := live[id.value := e];
      }
      entries := entries + [e];
      assert Abs().execs == Step(old(Abs()), Action.Start(execId)).execs;
      assert Abs().live == Step(old(Abs()), Action.Start(execId)).live;
    }

    /** A reader's chunk goes to the end of its buffer. */
    method Append(e: Entry, stream: Stream, chunk: Bytes)
      requires Valid() && Holds(e)
      modifies e
      ensures Valid() && Abs() == Step(old(Abs()), Action.Append(e.index, stream, chunk))
      ensures e.out == old(e.out) + (if stream.Out? then chunk else [])
      ensures e.err == old(e.err) + (if stream.Err? then chunk else [])
      ensures e.done == old(e.done)
    {
      match stream {
        case Out => e.out := e.out + chunk;
        case Err => e.err := e.err + chunk;
      }
      assert Abs().execs == Step(old(Abs()), Action.Append(e.index, stream, chunk)).execs;
    }

    /** The copy that becomes the answer. */
    method CopyOutput(e: Entry) returns (out: Bytes, err: Bytes)
      requires Valid() && Holds(e) && e.phase == Running
      modifies e`phase, e`record
      ensures Valid() && Abs() == Step(old(Abs()), Action.Copy(e.index))
      ensures out == e.out && err == e.err && e.record == Some(Record(out, err))
    {
      out, err := e.out, e.err;
      e.phase, e.record := Copied, Some(Record(out, err));
      assert Abs().execs == Step(old(Abs()), Action.Copy(e.index)).execs;
    }

    /** The end of an execution: its flag is set and its id leaves the dictionary, whoever holds it. */
    method Finish(e: Entry, registered: Option<string>)
      requires Valid() && Holds(e) && e.phase != Finished && registered == e.id
      modifies this`live, e`done, e`phase
      ensures Valid() && Abs() == Step(old(Abs()), Action.Finish(e.index))
      ensures live == if registered.Some? then old(live) - {registered.value} else old(live)
      ensures e.done == (old(e.done) || registered.Some?) && e.out == old(e.out) && e.err == old(e.err)
    {
      e.phase := Finished;
      if registered.Some? {
        e.done := true;
        live := live - {registered.value};
      }
      assert Abs().execs == Step(old(Abs()), Action.Finish(e.index)).execs;
      assert Abs().live == Step(old(Abs()), Action.Finish(e.index)).live;
    }

    /** `GET /tail/<id>`: `None` is the 404. */
    method GetTail(execId: string, decode: Bytes -> string) returns (view: Option<View>)
      requires Valid()
      ensures view == Tail(Abs(), execId, decode)
      ensures IsAnswer(Abs(), execId, decode, view)
    {
      TailIs(Abs(), execId, decode);
      hide IsAnswer, IsLiveId;
      view := None;
      if IsLiveId(execId) && execId in live {
        var e := live[execId];
        view := Some(View(ClipFront(decode(e.out)), ClipFront(decode(e.err)), e.done));
      }
    }
  }
}
