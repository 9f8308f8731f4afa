/** The vertex queue of the GS thread: three slots that assemble primitives.

    Each vertex kick shifts the queue and may draw. Over every history of kicks since the
    primitive type was set, what is drawn is proved to be what the type prescribes of the
    vertices so far, whether or not earlier kicks drew, and no slot but the three is used. */
module VertexKick {
  import opened Wrappers

  const POINT: nat := 0
  const LINE: nat := 1
  const LINE_STRIP: nat := 2
  const TRIANGLE: nat := 3
  const TRIANGLE_STRIP: nat := 4
  const TRIANGLE_FAN: nat := 5
  const SPRITE: nat := 6

  /** The last n vertices, the oldest first. */
  function Last<T>(h: seq<T>, n: nat): seq<T>
    requires n <= |h|
  {
    h[|h| - n..]
  }

  /** What the kick that completes the history h draws: lists draw disjoint groups, strips the
      last vertices each time, a fan its first vertex and the last two. */
  function Prescribed<T>(prim: nat, h: seq<T>): Option<seq<T>> {
    var n := |h|;
    if prim == POINT then (if n >= 1 then Some(Last(h, 1)) else None)
    else if prim == LINE || prim == SPRITE then (if n > 0 && n % 2 == 0 then Some(Last(h, 2)) else None)
    else if prim == LINE_STRIP then (if n >= 2 then Some(Last(h, 2)) else None)
    else if prim == TRIANGLE then (if n > 0 && n % 3 == 0 then Some(Last(h, 3)) else None)
    else if prim == TRIANGLE_STRIP then (if n >= 3 then Some(Last(h, 3)) else None)
    else if prim == TRIANGLE_FAN then (if n >= 3 then Some([h[0]] + Last(h, 2)) else None)
    else None
  }

  /** Vertices of one primitive. */
  function VerticesOf(prim: nat): (n: nat)
    ensures n <= 3
  {
    if prim == POINT then 1 else if prim == TRIANGLE || prim == TRIANGLE_STRIP || prim == TRIANGLE_FAN then 3 else 2
  }

  /** How many vertices are waiting after n kicks. */
  function Waiting(prim: nat, n: nat): nat {
    if prim == LINE || prim == SPRITE then n % 2
    else if prim == TRIANGLE then n % 3
    else if prim == LINE_STRIP then (if n < 1 then n else 1)
    else if prim == TRIANGLE_STRIP || prim == TRIANGLE_FAN then (if n < 2 then n else 2)
    else 0
  }

  /** Vertex i of the queue, the newest being vertex 0: for a fan the older of two is the hub. */
  function Queued<T>(prim: nat, h: seq<T>, i: nat): T
    requires i < Waiting(prim, |h|) <= |h|
  {
    if prim == TRIANGLE_FAN && i == 1 then h[0] else h[|h| - 1 - i]
  }

  lemma WaitingFits(prim: nat, n: nat)
    ensures Waiting(prim, n) <= n && Waiting(prim, n) <= 2
  {
  }

  /** All that is drawn over a history when every kick may draw. */
  function DrawnBy<T>(prim: nat, h: seq<T>): seq<seq<T>> {
    if h == [] then []
    else
      var before := DrawnBy(prim, h[..|h| - 1]);
      match Prescribed(prim, h) case None => before case Some(vertices) => before + [vertices]
  }

  function Flat<T>(groups: seq<seq<T>>): seq<T> {
    if groups == [] then [] else Flat(groups[..|groups| - 1]) + groups[|groups| - 1]
  }

  predicate IsList(prim: nat) { prim == LINE || prim == SPRITE || prim == TRIANGLE }

  lemma DrawnMore<T>(prim: nat, h: seq<T>)
    requires h != []
    ensures DrawnBy(prim, h) == match Prescribed(prim, h)
      case None => DrawnBy(prim, h[..|h| - 1])
      case Some(vertices) => DrawnBy(prim, h[..|h| - 1]) + [vertices]
  {
    hide Prescribed;
  }

  lemma FlatMore<T>(groups: seq<seq<T>>, g: seq<T>)
    ensures Flat(groups + [g]) == Flat(groups) + g
  {
    assert (groups + [g])[..|groups + [g]| - 1] == groups;
  }

  /** A kick completes a primitive, or one vertex more waits. */
  lemma NextWaiting(prim: nat, n: nat)
    requires prim < 7 && n > 0
    ensures var waiting := Waiting(prim, n - 1) + 1;
      && waiting <= VerticesOf(prim)
      && Waiting(prim, n) == if waiting < VerticesOf(prim) then waiting
                             else if IsList(prim) then 0 else VerticesOf(prim) - 1
  {
  }

  lemma WhenPrescribed<T>(prim: nat, h: seq<T>)
    requires prim < 7 && h != []
    ensures Waiting(prim, |h| - 1) + 1 == VerticesOf(prim) ==> VerticesOf(prim) <= |h|
    ensures Prescribed(prim, h) ==
      if Waiting(prim, |h| - 1) + 1 < VerticesOf(prim) then None
      else if prim == TRIANGLE_FAN then Some([h[0]] + Last(h, 2)) else Some(Last(h, VerticesOf(prim)))
  {
    GroupsOf(|h|);
    hide Last;
  }

  lemma GroupsOf(n: nat)
    requires n > 0
    ensures (n - 1) % 2 + 1 < 2 <==> n % 2 != 0
    ensures (n - 1) % 3 + 1 < 3 <==> n % 3 != 0
    ensures n % 2 == 0 ==> n >= 2
    ensures n % 3 == 0 ==> n >= 3
  {
  }

  /** The primitives of a list use up the vertices in order, each once; the rest waits. */
  lemma {:induction false} ListsTile<T>(prim: nat, h: seq<T>)
    requires IsList(prim)
    ensures Waiting(prim, |h|) <= |h| && Flat(DrawnBy(prim, h)) == h[..|h| - Waiting(prim, |h|)]
    decreases |h|
  {
    hide Waiting, Prescribed, VerticesOf, DrawnBy, Last;
    WaitingFits(prim, |h|);
    if h == [] {
      NothingDrawn(prim, h);
    } else {
      var shorter, n := h[..|h| - 1], VerticesOf(prim);
      ListsTile(prim, shorter);
      NextWaiting(prim, |h|);
      WhenPrescribed(prim, h);
      DrawnMore(prim, h);
      if Waiting(prim, |h| - 1) + 1 == n {
        FlatMore(DrawnBy(prim, shorter), Last(h, n));
        LastRest(h, n);
      }
      WaitingFits(prim, |h| - 1);
      assert shorter[..|h| - 1 - Waiting(prim, |h| - 1)] == h[..|h| - 1 - Waiting(prim, |h| - 1)];
    }
  }

  lemma NothingDrawn<T>(prim: nat, h: seq<T>)
    requires h == []
    ensures DrawnBy(prim, h) == [] && Flat<T>([]) == []
  {
  }

  lemma LastRest<T>(h: seq<T>, n: nat)
    requires n <= |h|
    ensures h[..|h| - n] + Last(h, n) == h == h[..|h|]
  {
  }

  /** A strip or a fan draws with every vertex but the first ones. */
  lemma {:induction false} StripsDraw<T>(prim: nat, h: seq<T>)
    requires prim == LINE_STRIP || prim == TRIANGLE_STRIP || prim == TRIANGLE_FAN
    ensures |DrawnBy(prim, h)| == if |h| < VerticesOf(prim) then 0 else |h| - VerticesOf(prim) + 1
    decreases |h|
  {
    if h != [] {
      StripsDraw(prim, h[..|h| - 1]);
    }
  }

  class VertexQueue<Vertex(0)> {
    const vtxQueue: array<Vertex>
    var primType: nat
    var numVertices: nat
    // the vertices kicked since the primitive type was set
    ghost var history: seq<Vertex>

    ghost predicate Valid()
      reads this, vtxQueue
    {
      && vtxQueue.Length == 3 && primType < 8 && numVertices == Waiting(primType, |history|) <= |history|
          && numVertices <= 2
      && forall i :: 0 <= i < numVertices ==> vtxQueue[i] == Queued(primType, history, i)
    }

    constructor ()
      ensures Valid() && fresh(vtxQueue) && primType == POINT && history == []
    {
      vtxQueue := new Vertex[3];
      primType, numVertices, history := POINT, 0, [];
    }

    /** A write to PRIM starts over. */
    method WritePrim(value: nat)
      requires Valid()
      modifies this
      ensures Valid() && primType == value % 8 && history == []
    {
      primType := value % 8;
      numVertices := 0;
      history := [];
    }

    /** Make room at the front of the queue and put the vertex there. */
    method Enqueue(v: Vertex)
      requires vtxQueue.Length == 3 && numVertices <= 2
      modifies vtxQueue, `numVertices
      ensures numVertices == old(numVertices) + 1 && vtxQueue[0] == v
      ensures forall i :: 1 <= i < numVertices ==> vtxQueue[i] == old(vtxQueue[i - 1])
    {
      var i: nat := numVertices;
      while i > 0
        invariant i <= numVertices == old(numVertices) <= 2
        invariant forall j :: i < j <= numVertices ==> vtxQueue[j] == old(vtxQueue[j - 1])
        invariant forall j :: 0 <= j <= i && j < 3 ==> vtxQueue[j] == old(vtxQueue[j])
      {
        vtxQueue[i] := vtxQueue[i - 1];
        i := i - 1;
      }
      vtxQueue[0] := v;
      numVertices := numVertices + 1;
    }

    /** The vertices the primitive is drawn with, the oldest first. */
    method Rendered(n: nat) returns (vertices: seq<Vertex>)
      requires vtxQueue.Length == 3 && n <= 3
      ensures |vertices| == n && forall i :: 0 <= i < n ==> vertices[i] == vtxQueue[n - 1 - i]
    {
      vertices := [];
      for i := 0 to n
        invariant |vertices| == i && forall j :: 0 <= j < i ==> vertices[j] == vtxQueue[n - 1 - j]
      {
        vertices := vertices + [vtxQueue[n - 1 - i]];
      }
    }

    /** A vertex was just enqueued: the queue holds it and those that were waiting. */
    ghost predicate Kicked()
      reads this, vtxQueue
    {
      && vtxQueue.Length == 3 && primType < 8 && history != []
      && numVertices == Waiting(primType, |history| - 1) + 1 <= |history| && numVertices <= 3
      && forall i :: 0 <= i < numVertices ==>
        vtxQueue[i] == if primType == TRIANGLE_FAN && i == 2 then history[0] else history[|history| - 1 - i]
    }

    /** A fan's third vertex or later: afterwards the hub goes back to its place. */
    method AssembleFan(drawingKick: bool) returns (drawn: Option<seq<Vertex>>)
      requires Kicked() && primType == TRIANGLE_FAN
      modifies `numVertices, vtxQueue
      ensures Valid() && drawn == if drawingKick then Prescribed(primType, history) else None
    {
      drawn := None;
      if numVertices == 3 {
        numVertices := numVertices - 1;
        if drawingKick {
          var vertices := Rendered(3);
          assert vertices == [history[0]] + Last(history, 2);
          drawn := Some(vertices);
        }
        vtxQueue[1] := vtxQueue[2];
      }
    }

    /** Whether a primitive is complete, and how many vertices stay in the queue. */
    method Count() returns (requestDrawKick: bool)
      requires Kicked() && primType < 7 && primType != TRIANGLE_FAN
      modifies `numVertices
      ensures requestDrawKick == (old(numVertices) == VerticesOf(primType))
      ensures numVertices == Waiting(primType, |history|) <= old(numVertices)
    {
      NextWaiting(primType, |history|);
      hide Waiting;
      requestDrawKick := false;
      match primType
      case 0 =>
        numVertices := numVertices - 1;
        requestDrawKick := true;
      case 1 =>
        if numVertices == 2 {
          numVertices := 0;
          requestDrawKick := true;
        }
      case 2 =>
        if numVertices == 2 {
          numVertices := numVertices - 1;
          requestDrawKick := true;
        }
      case 3 =>
        if numVertices == 3 {
          numVertices := 0;
          requestDrawKick := true;
        }
      case 4 =>
        if numVertices == 3 {
          numVertices := numVertices - 1;
          requestDrawKick := true;
        }
      case _ =>
        if numVertices == 2 {
          numVertices := 0;
          requestDrawKick := true;
        }
    }

    /** The switch over the primitive types. */
    method Assemble(drawingKick: bool) returns (drawn: Option<seq<Vertex>>, died: bool)
      requires Kicked()
      modifies `numVertices, vtxQueue
      ensures died == (primType == 7) && (!died ==> Valid())
      ensures !died ==> drawn == if drawingKick then Prescribed(primType, history) else None
    {
      hide Waiting, Prescribed;
      died := primType == 7;
      drawn := None;
      if died {
        return;
      }
      WaitingFits(primType, |history|);
      NextWaiting(primType, |history|);
      WhenPrescribed(primType, history);
      if primType == TRIANGLE_FAN {
        drawn := AssembleFan(drawingKick);
      } else {
        var requestDrawKick := Count();
        if drawingKick && requestDrawKick {
          var vertices := Rendered(VerticesOf(primType));
          assert vertices == Last(history, VerticesOf(primType));
          drawn := Some(vertices);
        }
      }
    }

    /** vertex_kick */
    method Kick(v: Vertex, drawingKick: bool) returns (drawn: Option<seq<Vertex>>, died: bool)
      requires Valid()
      modifies this, vtxQueue
      ensures primType == old(primType) && history == old(history) + [v] && died == (primType == 7)
      ensures !died ==> Valid()
      ensures !died ==> drawn == if drawingKick then Prescribed(primType, history) else None
    {
      hide Prescribed, Waiting;
      Enqueue(v);
      history := history + [v];
      drawn, died := Assemble(drawingKick);
    }
  }
}
