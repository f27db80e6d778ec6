/** The host terminal as the Kitty graphics protocol describes it: stored images, and placements of them on
    the screen. Deleting an image takes its placements along; so does transmitting an image under a used id. */
module KittyHost {
  import opened Bytes
  import opened Clipping

  /** One escape sequence, or one whole upload. `x` to `yOffset` are keys that may be left out. */
  datatype Command =
    | UploadImage(id: nat, width: nat, height: nat, format: nat, data: seq<byte>)
    | DisplayPlacement(row: nat, column: nat, id: nat, placement: nat, cols: nat, rows: nat, z: int,
                       x: Option<nat>, y: Option<nat>, w: Option<nat>, h: Option<nat>,
                       xOffset: Option<nat>, yOffset: Option<nat>)
    | DeleteImage(id: nat)
    | DeletePlacement(id: nat, placement: nat)

  datatype Image = Image(width: nat, height: nat, format: nat, data: seq<byte>)

  /** What is on screen: geometry in cells and pixels, and the stacking order. */
  datatype View = View(geometry: Clipped, z: int)

  datatype Host = Host(images: map<nat, Image>, placements: map<(nat, nat), View>)

  const EMPTY := Host(map[], map[])

  function KeyValue(key: Option<nat>): nat { if key.Some? then key.value else 0 }

  function WithoutImage<V>(placements: map<(nat, nat), V>, id: nat): map<(nat, nat), V> {
    map key | key in placements && key.0 != id :: placements[key]
  }

  predicate Representable(c: Command)
    requires c.DisplayPlacement?
  {
    && 1 <= c.row <= U16_MAX + 1 && 1 <= c.column <= U16_MAX + 1 && c.cols <= U32_MAX && c.rows <= U32_MAX
    && KeyValue(c.x) <= U32_MAX && KeyValue(c.y) <= U32_MAX && KeyValue(c.w) <= U32_MAX
    && KeyValue(c.h) <= U32_MAX && KeyValue(c.xOffset) <= U32_MAX && KeyValue(c.yOffset) <= U32_MAX
  }

  function Shown(c: Command): View
    requires c.DisplayPlacement? && Representable(c)
  {
    View(Clipped(c.column - 1, c.row - 1, c.cols, c.rows, KeyValue(c.x), KeyValue(c.y), KeyValue(c.w), KeyValue(c.h),
                 KeyValue(c.xOffset), KeyValue(c.yOffset)), c.z)
  }

  function Execute(host: Host, c: Command): Host {
    match c
    case UploadImage(id, width, height, format, data) =>
      Host(host.images[id := Image(width, height, format, data)], WithoutImage(host.placements, id))
    case DisplayPlacement(_, _, id, placement, _, _, _, _, _, _, _, _, _) =>
      if id in host.images && Representable(c) then host.(placements := host.placements[(id, placement) := Shown(c)])
      else host
    case DeleteImage(id) => Host(host.images - {id}, WithoutImage(host.placements, id))
    case DeletePlacement(id, placement) => host.(placements := host.placements - {(id, placement)})
  }

  function ExecuteAll(host: Host, commands: seq<Command>): Host
    decreases |commands|
  {
    if commands == [] then host else ExecuteAll(Execute(host, commands[0]), commands[1..])
  }

  lemma {:induction false} ExecuteConcat(host: Host, a: seq<Command>, b: seq<Command>)
    ensures ExecuteAll(host, a + b) == ExecuteAll(ExecuteAll(host, a), b)
    decreases |a|
  {
    hide Execute;
    if a == [] {
      assert a + b == b;
    } else {
      assert (a + b)[1..] == a[1..] + b;
      ExecuteConcat(Execute(host, a[0]), a[1..], b);
    }
  }

  /** Deleting a list of images, in whatever order, leaves the others and their placements. */
  lemma {:induction false} ExecuteImageDeletes(host: Host, commands: seq<Command>, ids: set<nat>)
    requires forall i :: 0 <= i < |commands| ==> commands[i].DeleteImage?
    requires forall id :: id in ids <==> DeleteImage(id) in commands
    ensures ExecuteAll(host, commands) ==
            Host(host.images - ids, map key | key in host.placements && key.0 !in ids :: host.placements[key])
    decreases |commands|
  {
    if commands == [] {
      assert ids == {};
    } else {
      var id := commands[0].id;
      var rest := set i | i in ids && DeleteImage(i) in commands[1..];
      assert forall i :: i in ids ==> i == id || i in rest;
      ExecuteImageDeletes(Execute(host, commands[0]), commands[1..], rest);
      assert ids == rest + {id};
    }
  }

  lemma {:induction false} ExecutePlacementDeletes(host: Host, commands: seq<Command>, keys: set<(nat, nat)>)
    requires forall i :: 0 <= i < |commands| ==> commands[i].DeletePlacement?
    requires forall key :: key in keys <==> DeletePlacement(key.0, key.1) in commands
    ensures ExecuteAll(host, commands) == host.(placements := host.placements - keys)
    decreases |commands|
  {
    if commands == [] {
      assert keys == {};
    } else {
      var key := (commands[0].id, commands[0].placement);
      var rest := set k | k in keys && DeletePlacement(k.0, k.1) in commands[1..];
      assert forall k :: k in keys ==> k == key || k in rest;
      ExecutePlacementDeletes(Execute(host, commands[0]), commands[1..], rest);
      assert keys == rest + {key};
    }
  }
}
