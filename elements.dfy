/**
  The values on the composition surface: placed images, the transform
  controls, and the sequence operations the editor performs on the surface.
*/
module Elements {
  import opened Options
  import opened Transform

  /** One image on the surface, as its inline style records it. `transform`
      and `opacity` are the raw style strings ("" when unset); `outlined` is the
      selection highlight, which is part of the serialized surface too. */
  datatype Element = Element(
    src: string,
    left: int,
    top: int,
    width: int,
    transform: string,
    opacity: string,
    outlined: bool)

  /** The values of the rotation, scale and opacity inputs. */
  datatype Controls = Controls(rotation: int, scale: ScaleText, opacity: string)

  /** The values the handlers reset the inputs to: 0, 1 and 1. */
  const DefaultControls: Controls := Controls(0, "1", "1")

  /** A dropped image is 100px wide ... */
  const DisplayWidth: int := 100
  /** ... and is placed 50px up and to the left of the mouse position. */
  const Anchor: int := 50

  /** The image a drop of `src` at canvas coordinates (x, y) creates: its
      width is set, so it is centred horizontally; its height is not, so
      vertically it is only placed 50px above the point. */
  function Dropped(src: string, x: int, y: int): (e: Element)
    ensures e.left + DisplayWidth / 2 == x && e.top + Anchor == y
    ensures e.width == DisplayWidth && e.src == src
    ensures e.transform == "" && e.opacity == "" && !e.outlined
  {
    Element(src, x - Anchor, y - Anchor, DisplayWidth, "", "", false)
  }

  /** An image moved so that its top-left corner is again 50px left of and
      above (x, y). */
  function MovedTo(e: Element, x: int, y: int): (r: Element)
    ensures r.left + DisplayWidth / 2 == x && r.top + Anchor == y
    ensures r.(left := e.left, top := e.top) == e
  {
    e.(left := x - Anchor, top := y - Anchor)
  }

  /** The control values an image's click handler reads off its style: the
      regex captures when the transform matches (0 and 1 otherwise), and the
      opacity, or 1 when it is unset. */
  function ReadControls(e: Element): (r: Controls)
    ensures r.opacity == if e.opacity == "" then "1" else e.opacity
    ensures (forall q :: 0 <= q <= |e.transform| ==> MatchAt(e.transform, q).None?) ==>
              r.rotation == 0 && r.scale == "1"
  {
    var opacity := if e.opacity == "" then "1" else e.opacity;
    match Exec(e.transform)
    case Some(captured) => Controls(IntValue(captured.rotation), captured.scale, opacity)
    case None => Controls(0, "1", opacity)
  }

  /** Selecting an image right after its transform and opacity were applied
      from controls `c` reads back exactly `c` (an empty opacity is unset and
      so reads back as 1). */
  lemma ReadBackApplied(e: Element, c: Controls)
    ensures ReadControls(e.(transform := Format(c.rotation, c.scale), opacity := c.opacity))
         == c.(opacity := if c.opacity == "" then "1" else c.opacity)
  {
    FormatRoundTrip(c.rotation, c.scale);
  }

  /** When the transform's leftmost match starts at `p`, the rotation and
      scale read back are that match's captures. */
  lemma ReadsLeftmost(e: Element, p: nat)
    requires Leftmost(e.transform, p)
    ensures ReadControls(e).rotation == IntValue(MatchAt(e.transform, p).value.rotation)
    ensures ReadControls(e).scale == MatchAt(e.transform, p).value.scale
  {
  }

  /** A freshly dropped image reads back the defaults. */
  lemma DroppedReadsDefaults(src: string, x: int, y: int)
    ensures ReadControls(Dropped(src, x, y)) == DefaultControls
  {
    EmptyDoesNotMatch();
  }

  /** The selection highlight plays no part in the control values. */
  lemma OutlineIgnored(e: Element, b: bool)
    ensures ReadControls(e.(outlined := b)) == ReadControls(e)
  {
  }

  /** Position of node `k` in `ns`, if it is there. */
  function IndexOf(ns: seq<nat>, k: nat): (r: Option<nat>)
    ensures r.Some? ==> r.value < |ns| && ns[r.value] == k
    ensures r.Some? ==> forall j :: 0 <= j < r.value ==> ns[j] != k
    ensures r.None? <==> k !in ns
  {
    if ns == [] then None
    else if ns[0] == k then Some(0)
    else match IndexOf(ns[1..], k)
      case Some(j) => Some(j + 1)
      case None => None
  }

  /** `s` without its element at `i`, the others in their order. */
  function RemoveAt<T>(s: seq<T>, i: nat): (r: seq<T>)
    requires i < |s|
    ensures |r| == |s| - 1
    ensures forall j :: 0 <= j < i ==> r[j] == s[j]
    ensures forall j :: i <= j < |r| ==> r[j] == s[j + 1]
    ensures multiset(r) + multiset{s[i]} == multiset(s)
  {
    assert s == s[..i] + [s[i]] + s[i + 1..];
    s[..i] + s[i + 1..]
  }

  /** `node.remove()` on the node of the entry `k` in `ns`: the entry goes
      away when it is attached; a detached node leaves the surface as it is. */
  function Detach<T>(s: seq<T>, ns: seq<nat>, k: nat): (r: seq<T>)
    requires |s| == |ns|
    ensures k !in ns ==> r == s
    ensures k in ns ==> |r| == |s| - 1
    ensures k in ns ==> exists i :: 0 <= i < |ns| && ns[i] == k && r == s[..i] + s[i + 1..]
  {
    match IndexOf(ns, k)
    case Some(i) => RemoveAt(s, i)
    case None => s
  }

  /** With distinct node ids, detaching `k` from the id list removes `k` and
      nothing else. */
  lemma DetachRemovesNode(ns: seq<nat>, k: nat)
    requires forall i, j :: 0 <= i < j < |ns| ==> ns[i] != ns[j]
    ensures k !in Detach(ns, ns, k)
    ensures forall m :: m != k ==> (m in Detach(ns, ns, k) <==> m in ns)
  {
  }
}
