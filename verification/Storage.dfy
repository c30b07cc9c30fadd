/** The storage operation program and its failure report, when any primitive call may fail (storage.rs). */
module Storage {
  import opened Collections

  type Area = map<string, string>

  datatype AreaName = Local | Session

  datatype Areas = Areas(local: Area, session: Area)

  datatype Snapshot = Snapshot(origin: string, areas: Areas)

  datatype Operation =
    | Capture
    | Set(area: AreaName, key: string, value: string)
    | Remove(area: AreaName, key: string)
    | Clear(which: Option<AreaName>)
    | Replace(snapshot: Snapshot)

  datatype Failure = OriginMismatch | OpaqueOrigin | SnapshotOriginMismatch | Thrown

  datatype Payload =
    | Done(origin: Option<string>, areas: Areas)
    | Failed(failure: Failure, mutationCommitted: bool)

  const PROTO: string := "__proto__"
  const OPAQUE: string := "null"

  // ---------- specification ----------

  /**
   * The entries of an area as properties of a JavaScript object. Giving an object a string under the name
   * `__proto__`, in a literal or by assignment, makes no property.
   */
  function Properties(area: Area): Area {
    area - {PROTO}
  }

  function PropertiesOf(areas: Areas): Areas {
    Areas(Properties(areas.local), Properties(areas.session))
  }

  function With(areas: Areas, name: AreaName, area: Area): Areas {
    match name
    case Local => areas.(local := area)
    case Session => areas.(session := area)
  }

  function Named(areas: Areas, name: AreaName): Area {
    match name
    case Local => areas.local
    case Session => areas.session
  }

  /** What the operation does when nothing fails. */
  function Effect(op: Operation, areas: Areas): Areas {
    match op
    case Capture => areas
    case Set(name, key, value) => With(areas, name, Named(areas, name)[key := value])
    case Remove(name, key) => With(areas, name, Named(areas, name) - {key})
    case Clear(Some(name)) => With(areas, name, map[])
    case Clear(None) => Areas(map[], map[])
    case Replace(snapshot) => PropertiesOf(snapshot.areas)
  }

  predicate Part(some: Area, all: Area) {
    some.Keys <= all.Keys && forall key :: key in some ==> some[key] == all[key]
  }

  /** Where a mutation that took effect and then failed can have stopped. */
  predicate Stopped(op: Operation, before: Areas, after: Areas) {
    match op
    case Capture => false
    case Clear(None) => after.local == map[] && (after.session == before.session || after.session == map[])
    case Replace(snapshot) =>
      var wanted := PropertiesOf(snapshot.areas);
      || after == Areas(map[], before.session)
      || (Part(after.local, wanted.local) && after.session == map[])
      || (after.local == wanted.local && Part(after.session, wanted.session))
    case _ => after == Effect(op, before)
  }

  /** Why the program refuses the operation before it touches an area. */
  function Refusal(op: Operation, expected: Option<string>, origin: Option<string>): Option<Failure> {
    if expected.Some? && origin != expected then Some(OriginMismatch)
    else if origin.None? || origin == Some(OPAQUE) then Some(OpaqueOrigin)
    else if op.Replace? && Some(op.snapshot.origin) != origin then Some(SnapshotOriginMismatch)
    else None
  }

  // ---------- the program ----------

  class StorageFrame {
    var local: Area
    var session: Area

    function Both(): Areas
      reads this
    {
      Areas(local, session)
    }

    constructor (local: Area, session: Area)
      ensures Both() == Areas(local, session)
    {
      this.local, this.session := local, session;
    }

    /** `storage.setItem`. */
    method SetItem(name: AreaName, key: string, value: string) returns (ok: bool)
      modifies this
      ensures Both() == if ok then old(With(Both(), name, Named(Both(), name)[key := value])) else old(Both())
    {
      ok := *;
      if ok {
        match name
        case Local => local := local[key := value];
        case Session => session := session[key := value];
      }
    }

    /** `storage.removeItem`. */
    method RemoveItem(name: AreaName, key: string) returns (ok: bool)
      modifies this
      ensures Both() == if ok then old(With(Both(), name, Named(Both(), name) - {key})) else old(Both())
    {
      ok := *;
      if ok {
        match name
        case Local => local := local - {key};
        case Session => session := session - {key};
      }
    }

    /** `clearArea`. */
    method ClearArea(name: AreaName) returns (ok: bool)
      modifies this
      ensures Both() == if ok then old(With(Both(), name, map[])) else old(Both())
    {
      ok := *;
      if ok {
        match name
        case Local => local := map[];
        case Session => session := map[];
      }
    }

    /** `snapshotArea`: the entries one by one into an object. */
    method SnapshotArea(name: AreaName) returns (ok: bool, entries: Area)
      ensures ok ==> entries == Properties(Named(Both(), name))
    {
      var area := Named(Both(), name);
      entries := map[];
      var rest := area.Keys;
      while rest != {}
        invariant rest <= area.Keys
        invariant entries == map key | key in area && key != PROTO && key !in rest :: area[key]
        decreases |rest|
      {
        ok := *;
        if !ok {
          return;
        }
        var key :| key in rest;
        rest := rest - {key};
        if key != PROTO {
          entries := entries[key := area[key]];
        }
      }
      ok := true;
    }

    /** `snapshot`. */
    method TakeSnapshot() returns (ok: bool, areas: Areas)
      ensures ok ==> areas == PropertiesOf(Both())
    {
      areas := Areas(map[], map[]);
      var localOk, localEntries := SnapshotArea(Local);
      if !localOk {
        return false, areas;
      }
      var sessionOk, sessionEntries := SnapshotArea(Session);
      if !sessionOk {
        return false, areas;
      }
      return true, Areas(localEntries, sessionEntries);
    }

    /** One of the two loops of a replacement: the object's properties into an area just cleared. */
    method Fill(name: AreaName, wanted: Area) returns (ok: bool)
      requires Named(Both(), name) == map[]
      modifies this
      ensures Part(Named(Both(), name), wanted) && Both() == With(old(Both()), name, Named(Both(), name))
      ensures ok ==> Named(Both(), name) == wanted
    {
      var rest := wanted.Keys;
      while rest != {}
        invariant rest <= wanted.Keys
        invariant Named(Both(), name) == map key | key in wanted && key !in rest :: wanted[key]
        invariant Both() == With(old(Both()), name, Named(Both(), name))
        decreases |rest|
      {
        var key :| key in rest;
        ok := SetItem(name, key, wanted[key]);
        if !ok {
          return;
        }
        rest := rest - {key};
      }
      assert (map key | key in wanted && key !in rest :: wanted[key]) == wanted;
      ok := true;
    }

    /** The replacement; `committed` is whether the areas may have changed. */
    method ReplaceWith(snapshot: Snapshot) returns (ok: bool, committed: bool)
      modifies this
      ensures ok ==> committed && Both() == PropertiesOf(snapshot.areas)
      ensures committed ==> Stopped(Replace(snapshot), old(Both()), Both())
      ensures !committed ==> Both() == old(Both())
    {
      committed := false;
      ok := ClearArea(Local);
      if !ok {
        return;
      }
      committed := true;
      ok := ClearArea(Session);
      if !ok {
        return;
      }
      var wanted := PropertiesOf(snapshot.areas);
      ok := Fill(Local, wanted.local);
      if !ok {
        return;
      }
      ok := Fill(Session, wanted.session);
    }

    /** The `switch` of the program. */
    method Mutate(op: Operation) returns (ok: bool, committed: bool)
      modifies this
      ensures ok ==> Both() == Effect(op, old(Both())) && committed == !op.Capture?
      ensures committed ==> Stopped(op, old(Both()), Both())
      ensures !committed ==> Both() == old(Both())
    {
      ok, committed := true, false;
      match op
      case Capture =>
      case Set(name, key, value) =>
        ok := SetItem(name, key, value);
        committed := ok;
      case Remove(name, key) =>
        ok := RemoveItem(name, key);
        committed := ok;
      case Clear(Some(name)) =>
        ok := ClearArea(name);
        committed := ok;
      case Clear(None) =>
        ok := ClearArea(Local);
        if ok {
          committed := true;
          ok := ClearArea(Session);
        }
      case Replace(snapshot) =>
        ok, committed := ReplaceWith(snapshot);
    }

    /** The whole program, given the frame's origin as it first reads it. */
    method Run(op: Operation, expected: Option<string>, origin: Option<string>) returns (payload: Payload)
      modifies this
      ensures payload.Done? ==>
                && Refusal(op, expected, origin).None?
                && Both() == Effect(op, old(Both()))
                && payload.areas == PropertiesOf(Both())
      ensures payload.Failed? && !payload.mutationCommitted ==> Both() == old(Both())
      ensures payload.Failed? && payload.mutationCommitted ==> Stopped(op, old(Both()), Both())
      ensures Refusal(op, expected, origin).Some? ==> payload == Failed(Refusal(op, expected, origin).value, false)
    {
      var refusal := Refusal(op, expected, origin);
      if refusal.Some? {
        return Failed(refusal.value, false);
      }
      var ok, committed := Mutate(op);
      if !ok {
        return Failed(Thrown, committed);
      }
      var seen: Option<string> := *;
      var taken, areas := TakeSnapshot();
      if !taken {
        return Failed(Thrown, committed);
      }
      return Done(seen, areas);
    }
  }

  // ---------- the report ----------

  /** A frame as resolved before and after the program ran, with the origin of its URL. */
  datatype FrameContext = FrameContext(frameId: string, url: Option<string>, urlOrigin: Option<string>)

  predicate Drifted(before: FrameContext, after: FrameContext, expected: Option<string>, current: Option<string>) {
    || before.frameId != after.frameId
    || (expected.Some? && current.Some? && current != expected)
    || (expected.Some? && after.urlOrigin.Some? && after.urlOrigin != expected)
    || (expected.None? && before.url != after.url)
  }

  datatype Report =
    | Captured(snapshot: Snapshot)
    | Rejected(mutationCommitted: bool)
    | Internal

  /**
   * `execute_storage_operation`, where the frame is resolved again after the program, or that fails. A report that
   * no mutation was committed is always true, and one that a mutation was says how far it can have got. The
   * internal error, for a payload without an origin, carries no flag although the operation took effect.
   */
  method Execute(frame: StorageFrame, op: Operation, expected: Option<string>, origin: Option<string>,
                 before: FrameContext, after: Option<FrameContext>)
    returns (report: Report)
    modifies frame
    ensures report.Captured? ==>
              && Refusal(op, expected, origin).None?
              && frame.Both() == Effect(op, old(frame.Both()))
              && report.snapshot.areas == PropertiesOf(frame.Both())
              && after.Some? && before.frameId == after.value.frameId
              && (if expected.None? then before.url == after.value.url
                  else Some(report.snapshot.origin) == expected && after.value.urlOrigin in {None, expected})
    ensures report == Rejected(false) ==> frame.Both() == old(frame.Both())
    ensures report == Rejected(true) ==>
              Stopped(op, old(frame.Both()), frame.Both()) || frame.Both() == Effect(op, old(frame.Both()))
    ensures report.Internal? ==> frame.Both() == Effect(op, old(frame.Both()))
    ensures Refusal(op, expected, origin).Some? ==> report == Rejected(false)
  {
    var payload := frame.Run(op, expected, origin);
    if payload.Failed? {
      return Rejected(payload.mutationCommitted);
    }
    if after.None? || Drifted(before, after.value, expected, payload.origin) {
      return Rejected(!op.Capture?);
    }
    if payload.origin.None? {
      return Internal;
    }
    return Captured(Snapshot(payload.origin.value, payload.areas));
  }

  // ---------- laws ----------

  function ItemAt(areas: Areas, name: AreaName, key: string): Option<string> {
    if key in Named(areas, name) then Some(Named(areas, name)[key]) else None
  }

  /** What an operation leaves under each key of each area. */
  lemma EffectAt(op: Operation, areas: Areas, name: AreaName, key: string)
    ensures var before, after := ItemAt(areas, name, key), ItemAt(Effect(op, areas), name, key);
            && (op.Capture? ==> after == before)
            && (op.Set? ==> after == if op.area == name && op.key == key then Some(op.value) else before)
            && (op.Remove? ==> after == if op.area == name && op.key == key then None else before)
            && (op.Clear? ==> after == if op.which == None || op.which == Some(name) then None else before)
            && (op.Replace? ==>
                  after == if key == "__proto__" then None else ItemAt(op.snapshot.areas, name, key))
  {
    match name
    case Local =>
    case Session =>
  }

  /** An operation is refused for an origin that is unknown or opaque, or not the expected or the snapshot's one. */
  lemma RefusedIff(op: Operation, expected: Option<string>, origin: Option<string>)
    ensures Refusal(op, expected, origin).None? <==>
            exists o :: origin == Some(o) && o != "null" && expected in {None, Some(o)}
                        && (op.Replace? ==> op.snapshot.origin == o)
    ensures Refusal(op, expected, origin) == Some(OriginMismatch) <==> expected !in {None, origin}
    ensures Refusal(op, expected, origin) == Some(OpaqueOrigin) <==>
            expected in {None, origin} && origin in {None, Some("null")}
    ensures Refusal(op, expected, origin) != Some(Thrown)
  {
    if Refusal(op, expected, origin).None? {
      assert origin == Some(origin.value);
    }
  }

  /** A frame that kept its id and its URL, with every known origin the expected one, has not drifted. */
  lemma SteadyIsNotDrifted(before: FrameContext, after: FrameContext, expected: Option<string>, current: Option<string>)
    requires before.frameId == after.frameId && before.url == after.url
    requires expected.Some? ==> current in {None, expected} && after.urlOrigin in {None, expected}
    ensures !Drifted(before, after, expected, current)
  {
  }

  predicate Plain(areas: Areas) {
    PROTO !in areas.local && PROTO !in areas.session
  }

  lemma PropertiesKeepAll(areas: Areas)
    ensures PropertiesOf(areas) == areas <==> Plain(areas)
  {
    if Plain(areas) {
      assert areas.local - {PROTO} == areas.local && areas.session - {PROTO} == areas.session;
    } else {
      assert PROTO !in PropertiesOf(areas).local && PROTO !in PropertiesOf(areas).session;
    }
  }

  /** A replacement leaves the areas as the snapshot has them exactly when no key is `__proto__`. */
  lemma ReplaceMeansSnapshot(snapshot: Snapshot, areas: Areas)
    ensures Effect(Replace(snapshot), areas) == snapshot.areas <==> Plain(snapshot.areas)
  {
    PropertiesKeepAll(snapshot.areas);
  }

  /** Capturing the areas and replacing any other contents by that capture brings them back, on the same condition. */
  lemma CaptureReplaceRoundTrip(origin: string, areas: Areas, later: Areas)
    ensures Effect(Replace(Snapshot(origin, PropertiesOf(areas))), later) == areas <==> Plain(areas)
  {
    assert Properties(Properties(areas.local)) == Properties(areas.local);
    assert Properties(Properties(areas.session)) == Properties(areas.session);
    PropertiesKeepAll(areas);
  }

  lemma ProtoKeyIsLost()
    ensures var snapshot := Snapshot("https://a", Areas(map[PROTO := "x"], map[]));
            Effect(Replace(snapshot), Areas(map[], map[])) == Areas(map[], map[]) != snapshot.areas
  {
    assert map[PROTO := "x"] - {PROTO} == map[];
    assert PROTO in map[PROTO := "x"];
  }
}
