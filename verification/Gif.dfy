/** The graphics interface: three paths into the GS, one of them active at a time.

    Whatever the paths' requests, masks and interruptions, the active path is never queued as
    well, nobody waits while the interface is free, and a path keeps its claim until it is
    taken back while idle. However the paths' quadwords are interleaved, each path's parser is
    where its own quadwords alone would take it. */
module Gif {
  import opened GifTag

  const IDLE: nat := 4

  const PATHS: set<nat> := {1, 2, 3}

  /** The waiting path that goes first; 0 if nobody waits. */
  function Lowest(queue: set<nat>): nat {
    if 1 in queue then 1 else if 2 in queue then 2 else if 3 in queue then 3 else 0
  }

  /** No path has a packet under way. */
  function Cleared(tags: seq<Tag>): (r: seq<Tag>)
    requires |tags| == 4
    ensures |r| == 4 && forall i :: 0 <= i < 4 ==> Proper(r[i]) && r[i].dataLeft == 0
  {
    [tags[0].(dataLeft := 0), tags[1].(dataLeft := 0), tags[2].(dataLeft := 0), tags[3].(dataLeft := 0)]
  }

  /** The first n quadwords of the FIFO went to PATH3's stream. */
  ghost predicate Flushed(fifo0: seq<Quad>, sent0: seq<seq<Quad>>, fifo: seq<Quad>, sent: seq<seq<Quad>>, n: nat) {
    && n <= |fifo0| && fifo == fifo0[n..] && |sent| == |sent0| == 4
    && sent == sent0[3 := sent0[3] + fifo0[..n]]
  }

  lemma NothingFlushed(fifo: seq<Quad>, sent: seq<seq<Quad>>)
    requires |sent| == 4
    ensures Flushed(fifo, sent, fifo, sent, 0)
  {
    assert sent[3] + fifo[..0] == sent[3];
  }

  lemma FlushedMore(fifo0: seq<Quad>, sent0: seq<seq<Quad>>, fifo: seq<Quad>, sent: seq<seq<Quad>>, fifo1: seq<Quad>,
          sent1: seq<seq<Quad>>, n: nat)
    requires Flushed(fifo0, sent0, fifo, sent, n) && fifo != []
    requires fifo1 == fifo[1..] && sent1 == sent[3 := sent[3] + [fifo[0]]]
    ensures Flushed(fifo0, sent0, fifo1, sent1, n + 1)
  {
    assert fifo0[..n] + [fifo0[n]] == fifo0[..n + 1];
    assert sent1[3] == sent0[3] + fifo0[..n + 1];
  }

  lemma FlushedUpTo(fifo0: seq<Quad>, sent0: seq<seq<Quad>>, fifo: seq<Quad>, sent: seq<seq<Quad>>, n: nat)
    requires Flushed(fifo0, sent0, fifo, sent, n)
    ensures n == |fifo0| - |fifo| && fifo == fifo0[n..] && |sent| == |sent0| == 4
    ensures sent == sent0[3 := sent0[3] + fifo0[..n]]
    ensures n == 0 <==> fifo == fifo0
  {
  }

  class GraphicsInterface {
    var path: seq<Tag>
    var fifo: seq<Quad>
    var activePath: nat
    var outputtingPath: bool
    var pathQueue: set<nat>
    var pathStatus: seq<nat>
    var path3VifMasked: bool
    var path3ModeMasked: bool
    var intermittentMode: bool
    var path3DmaRunning: bool
    var gifTemporaryStop: bool
    // since the last reset: each path's quadwords, the items they made, and the tags then
    ghost var sent: seq<seq<Quad>>
    ghost var items: seq<seq<Item>>
    ghost var base: seq<Tag>

    ghost predicate Valid()
      reads this
    {
      Paths() && Parsers()
    }

    /** The active path is not queued as well, and nobody waits for a free interface. */
    ghost predicate Paths()
      reads `activePath, `pathQueue, `pathStatus
    {
      && activePath <= 3 && pathQueue <= PATHS && |pathStatus| == 4
      && activePath !in pathQueue && (activePath == 0 ==> pathQueue == {})
    }

    /** Every path's parser stands where its own quadwords took it. */
    ghost predicate Parsers()
      reads `path, `sent, `items, `base
    {
      && |path| == 4 && |sent| == 4 && |items| == 4 && |base| == 4
      && forall i :: 0 <= i < 4 ==>
        Proper(base[i]) && base[i].dataLeft == 0 && Proper(path[i]) && FedAll(base[i], sent[i]) == (path[i], items[i])
    }

    /** The paths that are active or wait. */
    ghost function Claims(): set<nat>
      reads `activePath, `pathQueue
    {
      if activePath == 0 then pathQueue else pathQueue + {activePath}
    }

    /** PATH3 is masked, and idle, so that the mask takes effect. */
    predicate MaskedIdle()
      requires |pathStatus| == 4
      reads `path3VifMasked, `path3ModeMasked, `pathStatus
    {
      (path3VifMasked || path3ModeMasked) && pathStatus[3] == IDLE
    }

    /** PATH3 sends image data and may be interrupted between quadwords. */
    predicate ImageInterruptible()
      requires |pathStatus| == 4
      reads `intermittentMode, `pathStatus
    {
      intermittentMode && (pathStatus[3] == 2 || pathStatus[3] == 3)
    }

    constructor (tags: seq<Tag>)
      requires |tags| == 4
      ensures Valid() && activePath == 0
    {
      hide Cleared, FedAll;
      path := Cleared(tags);
      activePath, pathQueue, pathStatus := 0, {}, [IDLE, IDLE, IDLE, IDLE];
      fifo := [];
      intermittentMode, path3VifMasked, path3ModeMasked, path3DmaRunning := false, false, false, false;
      gifTemporaryStop, outputtingPath := false, false;
      new;
      ResetHistory();
    }

    method Reset()
      requires |path| == 4
      modifies this
      ensures Valid() && activePath == 0 && fifo == [] && sent == [[], [], [], []] && path == Cleared(old(path))
    {
      hide Cleared, FedAll;
      path := Cleared(path);
      ResetPaths();
      ResetFlags();
      ResetHistory();
    }

    method ResetPaths()
      modifies `activePath, `pathQueue, `pathStatus, `fifo
      ensures Paths() && activePath == 0 && fifo == []
    {
      activePath, pathQueue, pathStatus := 0, {}, [IDLE, IDLE, IDLE, IDLE];
      fifo := [];
    }

    method ResetFlags()
      modifies `intermittentMode, `path3VifMasked, `path3ModeMasked, `path3DmaRunning, `gifTemporaryStop,
          `outputtingPath
      ensures !intermittentMode && !path3VifMasked && !path3ModeMasked && !path3DmaRunning
      ensures !gifTemporaryStop && !outputtingPath
    {
      intermittentMode, path3VifMasked, path3ModeMasked, path3DmaRunning := false, false, false, false;
      gifTemporaryStop, outputtingPath := false, false;
    }

    /** The history starts over with the parsers as they are. */
    ghost method ResetHistory()
      requires |path| == 4 && forall i :: 0 <= i < 4 ==> Proper(path[i]) && path[i].dataLeft == 0
      modifies `sent, `items, `base
      ensures Parsers() && sent == [[], [], [], []]
    {
      hide FedAll;
      sent, items, base := [[], [], [], []], [[], [], [], []], path;
      forall i | 0 <= i < 4 ensures FedAll(base[i], sent[i]) == (path[i], items[i]) {
        FedNone(path[i]);
      }
    }

    // ----- arbitration

    /** The lowest waiting path takes over from nobody, or from a higher one that then waits. */
    method ArbitratePaths()
      requires activePath <= 3 && pathQueue <= PATHS && activePath !in pathQueue
      modifies `activePath, `pathQueue
      ensures Claims() == old(Claims()) && activePath !in pathQueue && pathQueue <= PATHS
      ensures activePath == (var first := Lowest(old(pathQueue));
        if first != 0 && (old(activePath) == 0 || first < old(activePath)) then first else old(activePath))
    {
      for newPath := 1 to 4
        invariant activePath == old(activePath) && pathQueue == old(pathQueue)
        invariant forall p :: 1 <= p < newPath ==> p !in pathQueue
      {
        if newPath in pathQueue {
          if activePath != 0 {
            if newPath > activePath {
              return;
            }
            pathQueue := pathQueue + {activePath};
          }
          pathQueue := pathQueue - {newPath};
          activePath := newPath;
          return;
        }
      }
    }

    /** Only an idle path gives up its claim; an active one hands over to the lowest that waits. */
    method DeactivatePath(index: nat)
      requires Paths() && index < 4
      modifies `activePath, `pathQueue
      ensures Paths()
      ensures pathStatus[index] != IDLE ==> activePath == old(activePath) && pathQueue == old(pathQueue)
      ensures pathStatus[index] == IDLE ==>
        && Claims() == old(Claims()) - {index}
        && activePath == (if old(activePath) == index then Lowest(old(pathQueue)) else old(activePath))
    {
      if pathStatus[index] == IDLE {
        pathQueue := pathQueue - {index};
        if activePath == index {
          activePath := 0;
          ArbitratePaths();
        }
      }
    }

    /** Finding an idle PATH3 masked takes its claim away. */
    method Path3Masked(index: nat) returns (masked: bool)
      requires Paths()
      modifies `activePath, `pathQueue
      ensures Paths()
      ensures masked == (index == 3 && MaskedIdle())
      ensures Claims() == if masked then old(Claims()) - {3} else old(Claims())
      ensures activePath == if masked && old(activePath) == 3 then Lowest(old(pathQueue)) else old(activePath)
    {
      if index != 3 {
        return false;
      }
      masked := false;
      if path3VifMasked || path3ModeMasked {
        masked := pathStatus[3] == IDLE;
        if masked {
          DeactivatePath(3);
        }
      }
    }

    /** Another path may take over from PATH3 in intermittent image mode, or when it is masked. */
    method InterruptPath3(index: nat) returns (interrupted: bool)
      requires Paths()
      modifies `activePath, `pathQueue
      ensures Paths()
      ensures interrupted == (old(activePath) == 3 && (index == 3 || ImageInterruptible() || MaskedIdle()))
      ensures !interrupted || index == 3 ==> activePath == old(activePath) && pathQueue == old(pathQueue)
      ensures interrupted && index != 3 ==>
        && activePath == (if old(pathQueue) == {} && !MaskedIdle() then 3 else Lowest(old(pathQueue)))
        && Claims() == if MaskedIdle() then old(Claims()) - {3} else old(Claims())
    {
      if activePath != 3 {
        return false;
      }
      if index == 3 {
        return true;
      }
      interrupted := intermittentMode && (pathStatus[3] == 2 || pathStatus[3] == 3);
      if !interrupted {
        interrupted := Path3Masked(3);
      }
      if interrupted {
        ArbitratePaths();
      }
    }

    /** A request is granted if the interface is free, else queued; it may interrupt PATH3. The
        only claim it can cost is that of PATH3, found masked while idle. */
    method RequestPath(index: nat, canInterruptPath3: bool)
      requires Paths() && index in PATHS
      modifies `activePath, `pathQueue
      ensures Paths()
      ensures var a := old(activePath);
        var lost := MaskedIdle() && if index == 3 then a == 0 || a == 3 else canInterruptPath3 && a == 3;
        && Claims() == old(Claims()) + {index} - (if lost then {3} else {})
        && activePath ==
          if a == 0 || a == index then (if lost then Lowest(old(pathQueue)) else index)
          else if canInterruptPath3 && a == 3
              && (ImageInterruptible() || MaskedIdle()) then Lowest(old(pathQueue) + {index})
          else a
    {
      if activePath == 0 || activePath == index {
        activePath := index;
        if activePath == 3 {
          var masked := Path3Masked(3);
        }
        return;
      } else {
        pathQueue := pathQueue + {index};
      }
      if canInterruptPath3 {
        var interrupted := InterruptPath3(index);
      }
    }

    // ----- data

    /** The parser's half of feed_GIF. */
    method Parse(q: Quad)
      requires activePath < 4 && |pathStatus| == 4 && Parsers()
      modifies `path, `pathStatus, `sent, `items
      ensures Parsers() && |pathStatus| == 4
      ensures var a := activePath; var r := Fed(old(path)[a], q);
        && path == old(path)[a := r.0]
        && sent == old(sent)[a := old(sent)[a] + [q]] && items == old(items)[a := old(items)[a] + r.1]
        && pathStatus == if old(path)[a].dataLeft == 0 then old(pathStatus)[a := r.0.format] else old(pathStatus)
    {
      hide FedAll, Fed, ReadTag;
      var a := activePath;
      FedMore(base[a], sent[a], q);
      TagRead(path[a], q);
      ghost var r := Fed(path[a], q);
      if path[a].dataLeft == 0 {
        path := path[a := ReadTag(q)];
        pathStatus := pathStatus[a := path[a].format];
      } else {
        path := path[a := Fed(path[a], q).0];
      }
      sent := sent[a := sent[a] + [q]];
      items := items[a := items[a] + r.1];
    }

    /** A quadword for the active path. The packet's last one gives up the path's claim. */
    method FeedGif(q: Quad)
      requires Valid()
      modifies `path, `pathStatus, `activePath, `pathQueue, `outputtingPath, `sent, `items
      ensures Valid()
      ensures var a := old(activePath); var r := Fed(old(path)[a], q); var ended := r.0.dataLeft == 0
          && r.0.endOfPacket;
        && path == old(path)[a := r.0]
        && sent == old(sent)[a := old(sent)[a] + [q]] && items == old(items)[a := old(items)[a] + r.1]
        && (ended ==> Claims() == old(Claims()) - {a} && activePath == Lowest(old(pathQueue)) && pathStatus[a] == IDLE)
        && (!ended ==> activePath == a && pathQueue == old(pathQueue))
        && (!ended ==> pathStatus[a] == if old(path)[a].dataLeft == 0 then r.0.format else old(pathStatus)[a])
        && outputtingPath == !(ended && old(pathQueue) == {})
        && forall p :: 0 <= p < 4 && p != a ==> pathStatus[p] == old(pathStatus)[p]
    {
      hide FedAll, Fed, Parsers;
      outputtingPath := true;
      ThePaths();
      var a := activePath;
      Parse(q);
      ThePaths();
      if path[a].dataLeft == 0 && path[a].endOfPacket {
        pathStatus := pathStatus[a := IDLE];
        if pathQueue == {} {
          outputtingPath := false;
        }
        DeactivatePath(a);
      }
    }

    lemma ThePaths()
      requires Parsers()
      ensures |path| == 4 && |sent| == 4 && |items| == 4 && |base| == 4 && forall i :: 0 <= i < 4 ==> Proper(path[i])
    {
      hide FedAll;
    }

    /** However the paths' quadwords were interleaved: in each path's own stream the items of a
        packet's body go to its descriptors in turn, and the path is ready for its next tag
        after exactly the body. */
    lemma Interleaved(i: nat, pre: seq<Quad>, q: Quad, body: seq<Quad>)
      requires Valid() && i < 4 && sent[i] == pre + [q] + body
      requires FedAll(base[i], pre).0.dataLeft == 0 && |body| <= BodyLength(ReadTag(q))
      ensures var tag := ReadTag(q); var before := |items[i]| - ItemCount(tag, |body|);
        && before >= 0 && items[i][..before] == FedAll(base[i], pre).1 + Fed(FedAll(base[i], pre).0, q).1
        && (forall k :: 0 <= k < ItemCount(tag, |body|) ==> items[i][before + k] == ItemAt(tag, body, k))
        && (path[i].dataLeft == 0 <==> |body| == BodyLength(tag))
    {
      hide FedAll, Fed, BodyLength, ItemCount, ItemAt, ReadTag;
      PacketItems(base[i], pre, q, body);
    }

    // ----- PATH3

    /** path_active; `blocked` is what the GS and the stop bit say */
    method PathActive(index: nat, canInterruptPath3: bool, blocked: bool) returns (active: bool)
      requires Paths() && index in PATHS
      modifies `activePath, `pathQueue
      ensures Paths() && active == (activePath == index && !blocked)
      ensures var interrupting := index != 3 && canInterruptPath3 && old(activePath) == 3;
        && Claims() == (if interrupting && MaskedIdle() then old(Claims()) - {3} else old(Claims()))
        && (!interrupting ==> activePath == old(activePath) && pathQueue == old(pathQueue))
    {
      if index != 3 && canInterruptPath3 {
        var interrupted := InterruptPath3(index);
      }
      active := activePath == index && !blocked;
    }

    /** PATH3 has data waiting and may go on. */
    predicate Resumable()
      requires |pathStatus| == 4
      reads `path3VifMasked, `path3ModeMasked, `pathStatus, `fifo
    {
      !path3VifMasked && !path3ModeMasked && fifo != [] && pathStatus[3] == IDLE
    }

    method ResumePath3()
      requires Valid()
      modifies `pathStatus, `activePath, `pathQueue
      ensures Valid()
      ensures old(Resumable()) ==> Claims() == old(Claims()) + {3} && pathStatus == old(pathStatus)[3 := 0]
      ensures !old(Resumable()) ==> Claims() == old(Claims()) && pathStatus == old(pathStatus)
    {
      hide FedAll;
      if path3VifMasked || path3ModeMasked {
        return;
      }
      if fifo != [] && pathStatus[3] == IDLE {
        pathStatus := pathStatus[3 := 0];
        RequestPath(3, false);
      }
    }

    method WriteMode(value: nat)
      requires Valid()
      modifies `intermittentMode, `path3ModeMasked, `pathStatus, `activePath, `pathQueue
      ensures Valid()
      ensures path3ModeMasked == (value % 2 == 1) && intermittentMode == (value / 4 % 2 == 1)
      ensures var resumed := old(path3ModeMasked) && !path3ModeMasked && !path3VifMasked && fifo != []
          && old(pathStatus)[3] == IDLE;
        Claims() == if resumed then old(Claims()) + {3} else old(Claims())
    {
      hide FedAll;
      var oldValue := path3ModeMasked;
      intermittentMode := value / 4 % 2 == 1;
      path3ModeMasked := value % 2 == 1;
      if oldValue && !path3ModeMasked {
        ResumePath3();
      }
    }

    method SetPath3VifMask(value: bool) returns (unmasked: bool)
      requires Valid()
      modifies `path3VifMasked
      ensures Valid() && path3VifMasked == value && unmasked == (old(path3VifMasked) && !value)
    {
      unmasked := path3VifMasked && !value;
      path3VifMasked := value;
    }

    method IntermittentCheck()
      requires Valid()
      modifies `activePath, `pathQueue
      ensures Valid() && Claims() == old(Claims())
      ensures activePath ==
        if old(activePath) == 3 && ImageInterruptible() && old(pathQueue) != {} then Lowest(old(pathQueue))
            else old(activePath)
    {
      hide FedAll;
      if activePath == 3 && intermittentMode && (pathStatus[3] == 2 || pathStatus[3] == 3) {
        ArbitratePaths();
      }
    }

    /** The next quadword of the FIFO goes to PATH3, which is active. Other paths keep their
        claims and their parsers; PATH3 keeps its claim unless it ends idle. */
    method FlushPath3Fifo()
      requires Valid() && fifo != [] && activePath == 3
      modifies `path, `pathStatus, `activePath, `pathQueue, `outputtingPath, `sent, `items, `fifo
      ensures Valid() && fifo == old(fifo)[1..] && sent == old(sent)[3 := old(sent)[3] + [old(fifo)[0]]]
      ensures Claims() - {3} == old(Claims()) - {3} && (3 in Claims() || pathStatus[3] == IDLE)
    {
      hide FedAll, Fed, Parsers;
      ThePaths();
      FeedGif(fifo[0]);
      fifo := fifo[1..];
      if fifo == [] {
        var masked := false;
        if path3DmaRunning {
          masked := Path3Masked(3);
        }
        if !path3DmaRunning || masked {
          DeactivatePath(3);
        }
      }
    }

    /** May the GIF flush now? The mask is looked at last, as it can cost PATH3 its claim. */
    method MayFlush(blocked: bool) returns (may: bool)
      requires Valid()
      modifies `activePath, `pathQueue
      ensures Valid()
      ensures may == (old(activePath) == 3 && !blocked && !MaskedIdle())
      ensures may || old(activePath) != 3 || blocked ==> activePath == old(activePath) && pathQueue == old(pathQueue)
      ensures Claims() ==
        if old(activePath) == 3 && !blocked && MaskedIdle() then old(Claims()) - {3} else old(Claims())
    {
      hide FedAll, Fed, Parsers;
      may := PathActive(3, false, blocked);
      if may {
        var masked := Path3Masked(3);
        may := !masked;
      }
    }

    /** The GIF's own turn: waiting PATH3 data goes out, in order, one quadword a cycle, while
        the path may be used; `blocked` is what the GS and the stop bit say before each. The
        other paths keep their claims; PATH3 gains one, and loses it only when it is masked
        while idle or a packet of its own has ended. */
    method Run(cycles: nat, blocked: nat -> bool)
      requires Valid()
      modifies `path, `pathStatus, `activePath, `pathQueue, `outputtingPath, `sent, `items, `fifo
      ensures Valid()
      ensures Claims() - {3} == old(Claims()) - {3}
      ensures 3 in old(Claims()) || old(fifo) != [] ==>
        3 in Claims() || if fifo == old(fifo) then MaskedIdle() else pathStatus[3] == IDLE
      ensures |fifo| <= |old(fifo)| && fifo == old(fifo)[|old(fifo)| - |fifo|..]
      ensures |sent| == 4 && sent == old(sent)[3 := old(sent)[3] + old(fifo)[..|old(fifo)| - |fifo|]]
      ensures |fifo| < |old(fifo)| <==>
        cycles > 0 && old(fifo) != [] && !blocked(0) && !old(MaskedIdle()) && (old(activePath) == 0
            || old(activePath) == 3)
      ensures var n := |old(fifo)| - |fifo|;
        n <= cycles && (n == cycles || fifo == [] || blocked(n) || activePath != 3 || MaskedIdle())
    {
      hide FedAll, Fed, Parsers, Claims, Flushed;
      ThePaths();
      NothingFlushed(fifo, sent);
      RequestFlush();
      var done := 0;
      var may := MayFlush(blocked(0));
      while may && cycles - done > 0 && fifo != []
        invariant Valid() && (may ==> activePath == 3)
        invariant Claims() - {3} == old(Claims()) - {3}
        invariant 3 in old(Claims()) || old(fifo) != [] ==>
            3 in Claims() || if done == 0 then MaskedIdle() else pathStatus[3] == IDLE
        invariant Flushed(old(fifo), old(sent), fifo, sent, done) && done <= cycles
        invariant !may ==> blocked(done) || activePath != 3 || MaskedIdle()
        invariant done == 0 && old(fifo) != [] ==>
            (may <==> !blocked(0) && !old(MaskedIdle()) && (old(activePath) == 0 || old(activePath) == 3))
        invariant done > 0 ==>
            !blocked(0) && !old(MaskedIdle()) && (old(activePath) == 0 || old(activePath) == 3)
        decreases cycles - done
      {
        FlushedUpTo(old(fifo), old(sent), fifo, sent, done);
        ghost var fifo0, sent0 := fifo, sent;
        FlushPath3Fifo();
        FlushedMore(old(fifo), old(sent), fifo0, sent0, fifo, sent, done);
        done := done + 1;
        may := MayFlush(blocked(done));
      }
      FlushedUpTo(old(fifo), old(sent), fifo, sent, done);
    }

    method RequestFlush()
      requires Valid()
      modifies `activePath, `pathQueue
      ensures Valid() && Claims() - {3} == old(Claims()) - {3}
      ensures 3 in old(Claims()) || fifo != [] ==> 3 in Claims() || MaskedIdle()
      ensures !MaskedIdle() && fifo != [] ==> (activePath == 3 <==> old(activePath) == 0 || old(activePath) == 3)
    {
      hide FedAll, Fed, Parsers;
      var masked := Path3Masked(3);
      if !masked && fifo != [] {
        RequestPath(3, false);
      }
    }

    /** PATH3's data goes straight on when the path can be had at once, is not masked while idle
        and nothing blocks it, else into the FIFO, which holds sixteen quadwords. */
    method SendPath3(q: Quad, blocked: bool)
      requires Valid()
      modifies `path, `pathStatus, `activePath, `pathQueue, `outputtingPath, `sent, `items, `fifo
      ensures Valid()
      ensures Claims() - {3} == old(Claims()) - {3} && |old(sent)| == |path| == 4
      ensures 3 in Claims() || old(MaskedIdle()) || (sent != old(sent) && path[3].dataLeft == 0 && path[3].endOfPacket)
      ensures if (old(activePath) == 0 || old(activePath) == 3) && !blocked && !old(MaskedIdle())
        then sent == old(sent)[3 := old(sent)[3] + [q]] && fifo == old(fifo)
        else sent == old(sent) && fifo == if |old(fifo)| < 16 then old(fifo) + [q] else old(fifo)
    {
      hide FedAll, Fed, Parsers;
      ThePaths();
      if 3 !in pathQueue && activePath != 3 {
        RequestPath(3, false);
      }
      var masked := Path3Masked(3);
      var active := false;
      if !masked {
        active := PathActive(3, false, blocked);
      }
      if !masked && active {
        FeedGif(q);
        assert |sent[3]| == |old(sent)[3]| + 1;
      } else if |fifo| < 16 {
        fifo := fifo + [q];
      }
    }
  }
}
