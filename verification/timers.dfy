/**
 * Turning off the update timers of the game's managers, which the integrity
 * checks use to stall interactions once they trip.
 *
 * The managed heap is a map from singleton name to object; an object's
 * runtime type lists the fields it declares and the object holds their
 * boolean values. Looking a singleton, its type or a field up by name is
 * the map and set membership here.
 */
module Timers {
  import opened Wrappers

  /** The fields a runtime type declares. */
  datatype TypeDefinition = TypeDefinition(fields: set<string>)

  /**
   * A managed object: whether its `info` and `info->classInfo` pointers are
   * set, its type definition if it can be found, and its boolean fields.
   */
  datatype ManagedObject = ManagedObject(
    hasInfo: bool,
    hasClassInfo: bool,
    typeDef: Option<TypeDefinition>,
    data: map<string, bool>)

  /** The managed singletons by name; a missing name is a null singleton. */
  type Singletons = map<string, ManagedObject>

  const UpdateTimerEnable: string := "UpdateTimerEnable"
  const LateUpdateTimerEnable: string := "LateUpdateTimerEnable"

  /** The managers whose timers are turned off on every frame, in order. */
  const Managers: seq<string> :=
    ["app.InteractManager", "app.EnemyManager", "app.GUIManager", "app.HIDManager", "app.FadeManager"]

  /** The null checks pass: the object has `info`, `classInfo` and a type definition. */
  predicate Reachable(o: ManagedObject) {
    o.hasInfo && o.hasClassInfo && o.typeDef.Some?
  }

  /** Field `f` is set to false when the object's type declares it. */
  function ClearField(o: ManagedObject, f: string): (r: ManagedObject)
    requires o.typeDef.Some?
  {
    if f in o.typeDef.value.fields then o.(data := o.data[f := false]) else o
  }

  /** The object with both timer fields its type declares set to false. */
  function Disabled(o: ManagedObject): (r: ManagedObject)
    requires Reachable(o)
    ensures Reachable(r) && r.typeDef == o.typeDef && r.hasInfo == o.hasInfo && r.hasClassInfo == o.hasClassInfo
    ensures forall f :: f in {UpdateTimerEnable, LateUpdateTimerEnable} && f in o.typeDef.value.fields ==>
      f in r.data && !r.data[f]
    ensures forall f :: f !in {UpdateTimerEnable, LateUpdateTimerEnable} || f !in o.typeDef.value.fields ==>
      (f in r.data <==> f in o.data) && (f in o.data ==> r.data[f] == o.data[f])
  {
    ClearField(ClearField(o, UpdateTimerEnable), LateUpdateTimerEnable)
  }

  /** Turning the timers off twice is turning them off once. */
  lemma DisabledIdempotent(o: ManagedObject)
    requires Reachable(o)
    ensures Disabled(Disabled(o)) == Disabled(o)
  {
    var d := Disabled(o);
    assert Disabled(d).data == d.data;
  }

  /**
   * `disable_update_timers(name)`: when the singleton exists and its null
   * checks pass, both timer fields its type declares become false; nothing
   * else in the heap changes.
   */
  function DisableUpdateTimers(heap: Singletons, name: string): (r: Singletons)
    ensures r.Keys == heap.Keys
    ensures forall n :: n in heap && n != name ==> r[n] == heap[n]
    ensures name in heap && Reachable(heap[name]) ==> r[name] == Disabled(heap[name])
    ensures name !in heap || !Reachable(heap[name]) ==> r == heap
  {
    if name in heap && Reachable(heap[name]) then heap[name := Disabled(heap[name])] else heap
  }

  /** An object after the frame: disabled if it is one of `names` and reachable, else unchanged. */
  function AfterFrame(o: ManagedObject, n: string, names: seq<string>): ManagedObject {
    if n in names && Reachable(o) then Disabled(o) else o
  }

  /** The managers of `names` handled one after the other. */
  function DisableAll(heap: Singletons, names: seq<string>): (r: Singletons)
    decreases |names|
  {
    if |names| == 0 then heap else DisableAll(DisableUpdateTimers(heap, names[0]), names[1..])
  }

  /** Handling the managers one after the other disables each reachable one and leaves all others alone. */
  lemma {:induction false} DisableAllEffect(heap: Singletons, names: seq<string>)
    ensures DisableAll(heap, names).Keys == heap.Keys
    ensures forall n :: n in heap ==> DisableAll(heap, names)[n] == AfterFrame(heap[n], n, names)
    decreases |names|
  {
    if |names| > 0 {
      var next := DisableUpdateTimers(heap, names[0]);
      DisableAllEffect(next, names[1..]);
      forall n | n in heap ensures DisableAll(heap, names)[n] == AfterFrame(heap[n], n, names) {
        if n == names[0] && Reachable(heap[n]) {
          DisabledIdempotent(heap[n]);
        }
      }
    }
  }

  /** `on_frame` for RE8: the five managers in turn. */
  function OnFrame(heap: Singletons): (r: Singletons)
    ensures r.Keys == heap.Keys
    ensures forall n :: n in heap ==> r[n] == AfterFrame(heap[n], n, Managers)
  {
    DisableAllEffect(heap, Managers);
    DisableAll(heap, Managers)
  }

  /** A second frame changes nothing the first did not. */
  lemma OnFrameIdempotent(heap: Singletons)
    ensures OnFrame(OnFrame(heap)) == OnFrame(heap)
  {
    var once := OnFrame(heap);
    var twice := OnFrame(once);
    forall n | n in heap ensures twice[n] == once[n] {
      if n in Managers && Reachable(heap[n]) {
        DisabledIdempotent(heap[n]);
      }
    }
  }
}
