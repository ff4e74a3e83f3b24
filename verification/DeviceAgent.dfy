/** The camera plugin's side: settings sent to the worker, and the objects made of its replies. */
module DeviceAgent {
  import opened Options
  import opened UuidCache
  import opened TrackIdentity
  import opened Detections
  import opened Filtering
  import opened Text
  import ReplyContents
  import ServeSpec

  // Settings.

  const MIN_TRACK_AGE := 10
  const MAX_TRACK_AGE := 300

  function ClampMaxAge(n: int): (r: int)
    ensures 10 <= r <= 300
    ensures 10 <= n <= 300 ==> r == n
    ensures (n < 10 ==> r == 10) && (n > 300 ==> r == 300)
  {
    if n < MIN_TRACK_AGE then MIN_TRACK_AGE else if n > MAX_TRACK_AGE then MAX_TRACK_AGE else n
  }

  /** The strings of a JSON array, in order; other items do not count. */
  function StringItems(items: seq<Option<string>>): seq<string> {
    if items == [] then []
    else
      StringItems(items[..|items| - 1]) +
      (var i := items[|items| - 1]; if i.Some? then [i.value] else [])
  }

  /** The `classes` key that is sent: none when the setting is empty text or no JSON array. */
  function ClassesSent(raw: string, parsed: Option<seq<Option<string>>>): Option<seq<string>> {
    if raw == "" || parsed.None? then None else Some(StringItems(parsed.value))
  }

  method ParseClasses(raw: string, parsed: Option<seq<Option<string>>>) returns (isSet: bool, list: seq<string>)
    ensures (if isSet then Some(list) else None) == ClassesSent(raw, parsed)
    ensures !isSet ==> list == []
  {
    list := [];
    if raw == "" || parsed.None? {
      return false, list;
    }
    var items := parsed.value;
    for i := 0 to |items|
      invariant list == StringItems(items[..i])
    {
      assert items[..i + 1][..i] == items[..i];
      if items[i].Some? {
        list := list + [items[i].value];
      }
    }
    assert items[..|items|] == items;
    return true, list;
  }

  /** What the setting means: every class when it is unset or no array, otherwise the classes whose names it lists. */
  ghost predicate ClassOn(table: map<string, nat>, raw: string, parsed: Option<seq<Option<string>>>, cls: int) {
    raw == "" || parsed.None? || exists n :: Some(n) in parsed.value && Key(n) in table && table[Key(n)] == cls
  }

  lemma {:induction false} StringItemsExact(items: seq<Option<string>>)
    ensures forall n :: n in StringItems(items) <==> Some(n) in items
    decreases |items|
  {
    if items == [] {
    } else {
      var init, last := items[..|items| - 1], items[|items| - 1];
      StringItemsExact(init);
      assert items == init + [last];
    }
  }

  /** From the setting to the worker: a class gets through the worker's filter exactly when the setting has it on, and the
      worker skips the model exactly when it has none on. */
  lemma ClassFilterEndToEnd(table: map<string, nat>, raw: string, parsed: Option<seq<Option<string>>>)
    ensures
      var sent := ClassesSent(raw, parsed);
      var filter := ServeSpec.FilterOf(table, sent);
      && (filter == Some([]) <==> forall cls :: !ClassOn(table, raw, parsed, cls))
      && (filter != Some([]) ==> forall cls :: ClassWanted(filter, cls) <==> ClassOn(table, raw, parsed, cls))
      && (forall cls :: ReplyContents.Ticked(table, sent, cls) <==> ClassOn(table, raw, parsed, cls))
  {
    var sent := ClassesSent(raw, parsed);
    ReplyContents.TriState(table, sent);
    if sent.Some? {
      StringItemsExact(parsed.value);
    }
    hide ServeSpec.FilterOf, ClassWanted, StringItems;
    assert forall cls :: ReplyContents.Ticked(table, sent, cls) <==> ClassOn(table, raw, parsed, cls);
  }

  // Replies.

  /** One box of a reply as the JSON parser hands it over. */
  datatype ReplyBox = ReplyBox(coords: seq<real>, trackId: Option<int>, cls: Option<int>)

  datatype ObjectMetadata = ObjectMetadata(cls: int, uuid: Uuid, x: real, y: real, width: real, height: real)

  /** The table, the number of UUIDs drawn so far, and the objects of the current packet. */
  datatype Emission = Emission(cache: seq<Entry>, draws: nat, objects: seq<ObjectMetadata>)

  function ObjectOf(b: ReplyBox, uuid: Uuid): ObjectMetadata
    requires |b.coords| == 4
  {
    ObjectMetadata(if b.cls.Some? then b.cls.value else 0, uuid,
                   b.coords[0], b.coords[1], b.coords[2] - b.coords[0], b.coords[3] - b.coords[1])
  }

  /** A box without four coordinates is skipped; one without a usable track id gets a UUID of its own. */
  function EmitBox(gen: nat -> Uuid, cap: nat, e: Emission, b: ReplyBox): Emission {
    if |b.coords| != 4 then e
    else if b.trackId.Some? && b.trackId.value > 0 then
      var r := Resolve(e.cache, b.trackId.value, gen(e.draws), cap);
      Emission(r.cache, if r.isNew then e.draws + 1 else e.draws, e.objects + [ObjectOf(b, r.uuid)])
    else Emission(e.cache, e.draws + 1, e.objects + [ObjectOf(b, gen(e.draws))])
  }

  function EmitAll(gen: nat -> Uuid, cap: nat, e: Emission, boxes: seq<ReplyBox>): Emission {
    if boxes == [] then e
    else EmitBox(gen, cap, EmitAll(gen, cap, e, boxes[..|boxes| - 1]), boxes[|boxes| - 1])
  }

  class Agent {
    const gen: nat -> Uuid
    const trackUuids: TrackUuidTable
    var draws: nat

    constructor (gen: nat -> Uuid)
      ensures this.gen == gen && draws == 0
      ensures fresh(trackUuids) && trackUuids.Valid() && trackUuids.cap == 4096 && Contents(trackUuids.lru) == []
    {
      this.gen, draws := gen, 0;
      trackUuids := new TrackUuidTable(TRACK_UUID_CAP);
    }

    /** The objects of one packet, a box at a time. */
    method EmitPacket(boxes: seq<ReplyBox>) returns (objects: seq<ObjectMetadata>)
      requires trackUuids.Valid()
      modifies this`draws, trackUuids
      ensures trackUuids.Valid()
      ensures Emission(Contents(trackUuids.lru), draws, objects) ==
        EmitAll(gen, trackUuids.cap, Emission(Contents(old(trackUuids.lru)), old(draws), []), boxes)
    {
      hide Contents, Resolve;
      objects := [];
      ghost var start := Emission(Contents(trackUuids.lru), draws, []);
      assert boxes[..0] == [];
      for i := 0 to |boxes|
        invariant trackUuids.Valid()
        invariant Emission(Contents(trackUuids.lru), draws, objects) == EmitAll(gen, trackUuids.cap, start, boxes[..i])
      {
        assert boxes[..i + 1][..i] == boxes[..i];
        var b := boxes[i];
        if |b.coords| != 4 {
          continue;
        }
        var uuid: Uuid;
        if b.trackId.Some? && b.trackId.value > 0 {
          var isNew;
          uuid, isNew := trackUuids.ResolveTrackUuid(b.trackId.value, gen(draws));
          if isNew {
            draws := draws + 1;
          }
        } else {
          uuid := gen(draws);
          draws := draws + 1;
        }
        objects := objects + [ObjectOf(b, uuid)];
      }
      assert boxes[..|boxes|] == boxes;
    }
  }

  // What the objects show.

  /** The object has the corners and the class of the box. */
  ghost predicate Pictures(o: ObjectMetadata, b: ReplyBox) {
    && |b.coords| == 4
    && o.x == b.coords[0] && o.y == b.coords[1] && o.x + o.width == b.coords[2] && o.y + o.height == b.coords[3]
    && (b.cls.Some? ==> o.cls == b.cls.value) && (b.cls.None? ==> o.cls == 0)
  }

  /** A box, if it has four coordinates. */
  function Drawable(): ReplyBox -> Option<ReplyBox> {
    (b: ReplyBox) => if |b.coords| == 4 then Some(b) else None
  }

  ghost predicate PicturesAll(objects: seq<ObjectMetadata>, shown: seq<ReplyBox>) {
    |objects| == |shown| && forall i | 0 <= i < |shown| :: Pictures(objects[i], shown[i])
  }

  /** The objects of a packet are, in order, one per box with four coordinates, with its corners and its class. */
  lemma {:induction false} PacketPicturesBoxes(gen: nat -> Uuid, cap: nat, cache: seq<Entry>, draws: nat, boxes: seq<ReplyBox>)
    returns (shown: seq<ReplyBox>)
    ensures Keeps(boxes, shown, Drawable())
    ensures PicturesAll(EmitAll(gen, cap, Emission(cache, draws, []), boxes).objects, shown)
    decreases |boxes|
  {
    if boxes == [] {
      shown := [];
      KeepsNothing(Drawable());
    } else {
      var init, b := boxes[..|boxes| - 1], boxes[|boxes| - 1];
      assert boxes == init + [b];
      hide Resolve, Keeps, EmitBox, PicturesAll;
      shown := PacketPicturesBoxes(gen, cap, cache, draws, init);
      KeepsOneMore(init, shown, Drawable(), b);
      BoxIsPictured(gen, cap, EmitAll(gen, cap, Emission(cache, draws, []), init), shown, b);
      shown := shown + if |b.coords| == 4 then [b] else [];
    }
  }

  lemma BoxIsPictured(gen: nat -> Uuid, cap: nat, e: Emission, shown: seq<ReplyBox>, b: ReplyBox)
    requires PicturesAll(e.objects, shown)
    ensures PicturesAll(EmitBox(gen, cap, e, b).objects, shown + if |b.coords| == 4 then [b] else [])
  {
    hide Resolve;
    assert shown + [] == shown;
  }

  lemma AllDrawable(boxes: seq<ReplyBox>)
    requires forall i | 0 <= i < |boxes| :: |boxes[i].coords| == 4
    ensures Keeps(boxes, boxes, Drawable())
  {
    var at: seq<nat> := seq(|boxes|, i => i);
    forall k: nat | k < |boxes|
      ensures k in at
    {
      assert at[k] == k;
    }
    assert KeptAt(boxes, boxes, Drawable(), at);
  }

  /** Nothing is left out when every box has four coordinates. */
  lemma WholePacket(gen: nat -> Uuid, cap: nat, cache: seq<Entry>, draws: nat, boxes: seq<ReplyBox>)
    requires forall i | 0 <= i < |boxes| :: |boxes[i].coords| == 4
    ensures PicturesAll(EmitAll(gen, cap, Emission(cache, draws, []), boxes).objects, boxes)
  {
    hide Keeps, EmitAll, PicturesAll;
    var shown := PacketPicturesBoxes(gen, cap, cache, draws, boxes);
    AllDrawable(boxes);
    KeptUnique(boxes, boxes, shown, Drawable());
  }

  // Boxes without a usable track id.

  ghost predicate Drawn(gen: nat -> Uuid, uuid: Uuid, draws: nat) {
    exists k: nat :: k < draws && gen(k) == uuid
  }

  predicate HasId(b: ReplyBox) {
    b.trackId.Some? && b.trackId.value > 0
  }

  /** No other object of the packet and no entry of the table has the UUID of object i. */
  ghost predicate OnItsOwn(e: Emission, i: nat)
    requires i < |e.objects|
  {
    && (forall j | 0 <= j < |e.objects| && j != i :: e.objects[j].uuid != e.objects[i].uuid)
    && (forall x | x in e.cache :: x.uuid != e.objects[i].uuid)
  }

  ghost predicate Apart(gen: nat -> Uuid, e: Emission, shown: seq<ReplyBox>) {
    && |e.objects| == |shown|
    && (forall x | x in e.cache :: Drawn(gen, x.uuid, e.draws))
    && (forall i | 0 <= i < |e.objects| :: Drawn(gen, e.objects[i].uuid, e.draws))
    && (forall i: nat | i < |shown| && !HasId(shown[i]) :: OnItsOwn(e, i))
  }

  lemma NewIsUndrawn(gen: nat -> Uuid, draws: nat)
    requires Injective(gen)
    ensures !Drawn(gen, gen(draws), draws) && Drawn(gen, gen(draws), draws + 1)
    ensures forall u :: Drawn(gen, u, draws) ==> Drawn(gen, u, draws + 1)
  {
  }

  lemma ResolvedFrom(cache: seq<Entry>, tid: int, drawn: Uuid, cap: nat)
    ensures
      var r := Resolve(cache, tid, drawn, cap);
      && (r.isNew ==> r.uuid == drawn)
      && (!r.isNew ==> exists x :: x in cache && x.uuid == r.uuid)
      && forall x | x in r.cache :: x in cache || (r.isNew && x.uuid == drawn)
  {
    var i := IndexOf(cache, tid);
    if i < |cache| {
      assert cache[i] in cache;
    }
    hide IndexOf;
  }

  lemma EmitKeepsApart(gen: nat -> Uuid, cap: nat, e: Emission, shown: seq<ReplyBox>, b: ReplyBox)
    requires Injective(gen) && Apart(gen, e, shown) && |b.coords| == 4
    ensures Apart(gen, EmitBox(gen, cap, e, b), shown + [b])
  {
    hide Drawn, Resolve, Injective;
    NewIsUndrawn(gen, e.draws);
    if HasId(b) {
      ResolvedFrom(e.cache, b.trackId.value, gen(e.draws), cap);
    }
    var e' := EmitBox(gen, cap, e, b);
    forall i: nat | i < |shown + [b]| && !HasId((shown + [b])[i])
      ensures OnItsOwn(e', i)
    {
      if i < |shown| {
        assert OnItsOwn(e, i);
      }
    }
  }

  /** A box without a usable track id gets a UUID that no other object of the packet has and no entry of the table. */
  lemma {:induction false} UntrackedStandAlone(gen: nat -> Uuid, cap: nat, cache: seq<Entry>, draws: nat, boxes: seq<ReplyBox>)
    returns (shown: seq<ReplyBox>)
    requires Injective(gen) && forall x | x in cache :: Drawn(gen, x.uuid, draws)
    ensures Keeps(boxes, shown, Drawable())
    ensures Apart(gen, EmitAll(gen, cap, Emission(cache, draws, []), boxes), shown)
    decreases |boxes|
  {
    if boxes == [] {
      shown := [];
      KeepsNothing(Drawable());
    } else {
      var init, b := boxes[..|boxes| - 1], boxes[|boxes| - 1];
      assert boxes == init + [b];
      hide Resolve, Keeps, Apart, Injective, Drawn;
      shown := UntrackedStandAlone(gen, cap, cache, draws, init);
      KeepsOneMore(init, shown, Drawable(), b);
      if |b.coords| == 4 {
        EmitKeepsApart(gen, cap, EmitAll(gen, cap, Emission(cache, draws, []), init), shown, b);
        shown := shown + [b];
      } else {
        assert shown + [] == shown;
      }
    }
  }

  /** The boxes of a reply that carries the given track ids. */
  ghost predicate Carries(boxes: seq<ReplyBox>, ids: seq<int>) {
    && |boxes| == |ids|
    && forall i | 0 <= i < |boxes| :: |boxes[i].coords| == 4 && boxes[i].trackId == Some(ids[i]) && ids[i] > 0
  }

  lemma {:induction false} UseAllAppend(gen: nat -> Uuid, cap: nat, l: Link, ids: seq<int>, id: int)
    ensures UseAll(gen, cap, l, ids + [id]) == Use(gen, cap, UseAll(gen, cap, l, ids), id)
    decreases |ids|
  {
    hide Use;
    if ids == [] {
      assert ids + [id] == [id];
      assert [id][1..] == [];
    } else {
      assert (ids + [id])[1..] == ids[1..] + [id];
      UseAllAppend(gen, cap, Use(gen, cap, l, ids[0]), ids[1..], id);
    }
  }

  /** The packet so far and the link agree on the table, the draws and the UUIDs shown. */
  ghost predicate InStride(l: Link, e: Emission, l': Link, ids: seq<int>) {
    && e.cache == l'.cache && e.draws == l'.draws
    && |e.objects| == |ids| && |l'.log| == |l.log| + |ids| && l.log <= l'.log
    && forall i | 0 <= i < |ids| :: l'.log[|l.log| + i] == Entry(ids[i], e.objects[i].uuid)
  }

  lemma StrideStep(gen: nat -> Uuid, cap: nat, l: Link, e: Emission, l': Link, ids: seq<int>, b: ReplyBox, id: int)
    requires InStride(l, e, l', ids)
    requires |b.coords| == 4 && b.trackId == Some(id) && id > 0
    ensures InStride(l, EmitBox(gen, cap, e, b), Use(gen, cap, l', id), ids + [id])
  {
    hide Resolve;
  }

  /** A worker's reply drives the table exactly as its track ids do, and each object shows the UUID of its id. */
  lemma {:induction false} PacketFollowsIds(gen: nat -> Uuid, cap: nat, l: Link, boxes: seq<ReplyBox>, ids: seq<int>)
    requires Carries(boxes, ids)
    ensures InStride(l, EmitAll(gen, cap, Emission(l.cache, l.draws, []), boxes), UseAll(gen, cap, l, ids), ids)
    decreases |boxes|
  {
    if boxes == [] {
    } else {
      var n := |boxes| - 1;
      var init, front := boxes[..n], ids[..n];
      var e0 := Emission(l.cache, l.draws, []);
      assert Carries(init, front);
      assert ids == front + [ids[n]];
      assert EmitAll(gen, cap, e0, boxes) == EmitBox(gen, cap, EmitAll(gen, cap, e0, init), boxes[n]);
      hide EmitAll, EmitBox, UseAll, Use, InStride;
      PacketFollowsIds(gen, cap, l, init, front);
      UseAllAppend(gen, cap, l, front, ids[n]);
      StrideStep(gen, cap, l, EmitAll(gen, cap, e0, init), UseAll(gen, cap, l, front), front, boxes[n], ids[n]);
    }
  }
}
