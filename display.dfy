/**
 * The display node's `updatePlots`: from one batch of bus messages, the lidar
 * scan artist is redrawn from the newest `lidar/scan` message and the map and
 * robot artists from the newest `slam/mappose` message. Drawing is abstract:
 * an update records which artist was redrawn and from which message.
 */
module Display {
  import opened Wrappers
  import opened PubSub

  const LidarScanTopic: string := "lidar/scan"
  const SlamMapposeTopic: string := "slam/mappose"

  datatype Artist = ScanPoints | SlamMap | Robot

  /** One artist redrawn from one message, in the order the redraws happen. */
  datatype Update<P> = Update(artist: Artist, message: Msg<P>)

  /** The index of the newest message on `topic`, if there is one. */
  function LastOn<P>(msgs: seq<Msg<P>>, topic: string): (r: Option<nat>)
    ensures r.Some? ==> r.value < |msgs| && msgs[r.value].topic == topic
  {
    if msgs == [] then None
    else match LastOn(msgs[1..], topic)
      case Some(i) => Some(i + 1)
      case None => if msgs[0].topic == topic then Some(0) else None
  }

  /** The index found is the newest on the topic, and none is found only when no message has the topic. */
  lemma {:induction false} LastOnIsNewest<P>(msgs: seq<Msg<P>>, topic: string)
    ensures var r := LastOn(msgs, topic);
      (r.Some? ==> forall k :: r.value < k < |msgs| ==> msgs[k].topic != topic) &&
      (r.None? ==> forall k :: 0 <= k < |msgs| ==> msgs[k].topic != topic)
    decreases |msgs|
  {
    if msgs != [] {
      LastOnIsNewest(msgs[1..], topic);
      assert forall k :: 0 < k < |msgs| ==> msgs[k] == msgs[1..][k - 1];
    }
  }

  /** The scan artist's redraw: from the newest scan message, or none. */
  function ScanUpdates<P>(msgs: seq<Msg<P>>): (r: seq<Update<P>>)
    ensures forall u :: u in r ==> u.message in msgs && u.message.topic == LidarScanTopic
  {
    match LastOn(msgs, LidarScanTopic)
    case None => []
    case Some(i) => [Update(ScanPoints, msgs[i])]
  }

  /** The map and robot artists' redraws: both from the newest map-and-pose message, or none. */
  function SlamUpdates<P>(msgs: seq<Msg<P>>): (r: seq<Update<P>>)
    ensures forall u :: u in r ==> u.message in msgs && u.message.topic == SlamMapposeTopic
  {
    match LastOn(msgs, SlamMapposeTopic)
    case None => []
    case Some(j) => [Update(SlamMap, msgs[j]), Update(Robot, msgs[j])]
  }

  /** The selection rule: each topic's newest message, the newer of the two drawn first. */
  function Expected<P>(msgs: seq<Msg<P>>): seq<Update<P>>
  {
    var i := LastOn(msgs, LidarScanTopic);
    var j := LastOn(msgs, SlamMapposeTopic);
    if i.Some? && (j.None? || i.value > j.value) then ScanUpdates(msgs) + SlamUpdates(msgs)
    else SlamUpdates(msgs) + ScanUpdates(msgs)
  }

  /** The messages an artist was redrawn from, in order. */
  function RedrawsOf<P>(us: seq<Update<P>>, a: Artist): seq<Msg<P>>
  {
    if us == [] then []
    else (if us[0].artist == a then [us[0].message] else []) + RedrawsOf(us[1..], a)
  }

  lemma {:induction false} RedrawsOfAppend<P>(a: seq<Update<P>>, b: seq<Update<P>>, x: Artist)
    ensures RedrawsOf(a + b, x) == RedrawsOf(a, x) + RedrawsOf(b, x)
  {
    if a != [] {
      assert (a + b)[1..] == a[1..] + b;
      assert (a + b)[0] == a[0];
      RedrawsOfAppend(a[1..], b, x);
      var h := if a[0].artist == x then [a[0].message] else [];
      assert h + (RedrawsOf(a[1..], x) + RedrawsOf(b, x)) == (h + RedrawsOf(a[1..], x)) + RedrawsOf(b, x);
    } else {
      assert a + b == b;
    }
  }

  /** Adding a message in front moves the newest index of every topic on by one, or finds it at 0. */
  lemma LastOnCons<P>(x: Msg<P>, s: seq<Msg<P>>, topic: string)
    ensures var r := LastOn([x] + s, topic); var l := LastOn(s, topic);
      r == if l.Some? then Some(l.value + 1) else if x.topic == topic then Some(0) else None
  {
    var m := [x] + s;
    assert m[1..] == s && m[0] == x;
    if LastOn(s, topic).Some? {
      LastOnTail(m, s, topic);
    }
  }

  /** The newest message on a topic after adding one in front: the old newest, else the added one. */
  lemma NewestCons<P>(x: Msg<P>, s: seq<Msg<P>>, topic: string)
    ensures var r := LastOn([x] + s, topic); var l := LastOn(s, topic);
      if l.Some? then r.Some? && ([x] + s)[r.value] == s[l.value]
      else if x.topic == topic then r.Some? && ([x] + s)[r.value] == x
      else r.None?
  {
    LastOnCons(x, s, topic);
    var l := LastOn(s, topic);
    if l.Some? {
      assert ([x] + s)[l.value + 1] == s[l.value];
    }
  }

  lemma ScanUpdatesCons<P>(x: Msg<P>, s: seq<Msg<P>>)
    ensures ScanUpdates([x] + s) ==
      if LastOn(s, LidarScanTopic).Some? then ScanUpdates(s)
      else if x.topic == LidarScanTopic then [Update(ScanPoints, x)] else []
  {
    NewestCons(x, s, LidarScanTopic);
  }

  lemma SlamUpdatesCons<P>(x: Msg<P>, s: seq<Msg<P>>)
    ensures SlamUpdates([x] + s) ==
      if LastOn(s, SlamMapposeTopic).Some? then SlamUpdates(s)
      else if x.topic == SlamMapposeTopic then [Update(SlamMap, x), Update(Robot, x)] else []
  {
    NewestCons(x, s, SlamMapposeTopic);
  }

  /** Redraws per artist of the scan part alone. */
  lemma ScanRedraws<P>(msgs: seq<Msg<P>>)
    ensures RedrawsOf(ScanUpdates(msgs), ScanPoints) ==
      (match LastOn(msgs, LidarScanTopic) case None => [] case Some(i) => [msgs[i]])
    ensures RedrawsOf(ScanUpdates(msgs), SlamMap) == [] && RedrawsOf(ScanUpdates(msgs), Robot) == []
  {
    var u := ScanUpdates(msgs);
    if u != [] {
      assert u[1..] == [];
    }
  }

  /** Redraws per artist of the map-and-pose part alone. */
  lemma SlamRedraws<P>(msgs: seq<Msg<P>>)
    ensures RedrawsOf(SlamUpdates(msgs), SlamMap) ==
      (match LastOn(msgs, SlamMapposeTopic) case None => [] case Some(j) => [msgs[j]])
    ensures RedrawsOf(SlamUpdates(msgs), Robot) == RedrawsOf(SlamUpdates(msgs), SlamMap)
    ensures RedrawsOf(SlamUpdates(msgs), ScanPoints) == []
  {
    var u := SlamUpdates(msgs);
    if u != [] {
      assert u[1..][1..] == [];
    }
  }

  /**
   * Each artist is redrawn at most once, from the newest message on its topic and
   * only when there is one; messages on other topics never cause a redraw.
   */
  lemma ExpectedSelects<P>(msgs: seq<Msg<P>>)
    ensures RedrawsOf(Expected(msgs), ScanPoints) ==
      (match LastOn(msgs, LidarScanTopic) case None => [] case Some(i) => [msgs[i]])
    ensures RedrawsOf(Expected(msgs), SlamMap) ==
      (match LastOn(msgs, SlamMapposeTopic) case None => [] case Some(j) => [msgs[j]])
    ensures RedrawsOf(Expected(msgs), Robot) == RedrawsOf(Expected(msgs), SlamMap)
  {
    var a := ScanUpdates(msgs);
    var b := SlamUpdates(msgs);
    ScanRedraws(msgs);
    SlamRedraws(msgs);
    RedrawsEitherOrder(Expected(msgs), a, b);
  }

  /** With the scan redraws in `a` and the map and robot redraws in `b`, their order does not matter per artist. */
  lemma RedrawsEitherOrder<P>(e: seq<Update<P>>, a: seq<Update<P>>, b: seq<Update<P>>)
    requires e == a + b || e == b + a
    requires RedrawsOf(a, SlamMap) == [] && RedrawsOf(a, Robot) == [] && RedrawsOf(b, ScanPoints) == []
    ensures RedrawsOf(e, ScanPoints) == RedrawsOf(a, ScanPoints)
    ensures RedrawsOf(e, SlamMap) == RedrawsOf(b, SlamMap)
    ensures RedrawsOf(e, Robot) == RedrawsOf(b, Robot)
  {
    if e == a + b {
      RedrawsOfNoneRight(a, b, ScanPoints);
      RedrawsOfNoneLeft(a, b, SlamMap);
      RedrawsOfNoneLeft(a, b, Robot);
    } else {
      RedrawsOfNoneLeft(b, a, ScanPoints);
      RedrawsOfNoneRight(b, a, SlamMap);
      RedrawsOfNoneRight(b, a, Robot);
    }
  }

  lemma RedrawsOfNoneLeft<P>(a: seq<Update<P>>, b: seq<Update<P>>, x: Artist)
    requires RedrawsOf(a, x) == []
    ensures RedrawsOf(a + b, x) == RedrawsOf(b, x)
  {
    RedrawsOfAppend(a, b, x);
    assert [] + RedrawsOf(b, x) == RedrawsOf(b, x);
  }

  lemma RedrawsOfNoneRight<P>(a: seq<Update<P>>, b: seq<Update<P>>, x: Artist)
    requires RedrawsOf(b, x) == []
    ensures RedrawsOf(a + b, x) == RedrawsOf(a, x)
  {
    RedrawsOfAppend(a, b, x);
    assert RedrawsOf(a, x) + [] == RedrawsOf(a, x);
  }

  /** Every redraw comes from a message of the list on one of the two plotted topics. */
  lemma ExpectedFromTopics<P>(msgs: seq<Msg<P>>)
    ensures forall u :: u in Expected(msgs) ==> u.message in msgs
    ensures forall u :: u in Expected(msgs) ==> u.message.topic == LidarScanTopic || u.message.topic == SlamMapposeTopic
  {
    var a := ScanUpdates(msgs);
    var b := SlamUpdates(msgs);
    assert forall u :: u in a + b ==> u in a || u in b;
    assert forall u :: u in b + a ==> u in a || u in b;
  }

  /** A message on any other topic, whatever its place, changes nothing. */
  lemma ExpectedIgnoresOthers<P>(x: Msg<P>, s: seq<Msg<P>>)
    requires x.topic != LidarScanTopic && x.topic != SlamMapposeTopic
    ensures Expected([x] + s) == Expected(s)
  {
    LastOnCons(x, s, LidarScanTopic);
    LastOnCons(x, s, SlamMapposeTopic);
    ScanUpdatesCons(x, s);
    SlamUpdatesCons(x, s);
  }

  /** The first scan message met by the reversed loop is drawn after everything drawn so far. */
  lemma ExpectedStepScan<P>(x: Msg<P>, s: seq<Msg<P>>)
    requires x.topic == LidarScanTopic && LastOn(s, LidarScanTopic).None?
    ensures Expected([x] + s) == Expected(s) + [Update(ScanPoints, x)]
  {
    LastOnCons(x, s, LidarScanTopic);
    LastOnCons(x, s, SlamMapposeTopic);
    ScanUpdatesCons(x, s);
    SlamUpdatesCons(x, s);
    var b := SlamUpdates(s);
    assert ScanUpdates(s) == [];
    assert ScanUpdates([x] + s) == [Update(ScanPoints, x)];
    assert SlamUpdates([x] + s) == b;
    if LastOn(s, SlamMapposeTopic).Some? {
      assert Expected(s) == b + [];
      assert Expected([x] + s) == b + [Update(ScanPoints, x)];
    } else {
      assert b == [];
      assert Expected(s) == [];
      assert Expected([x] + s) == [Update(ScanPoints, x)] + [];
    }
  }

  /** The first map-and-pose message met by the reversed loop is drawn after everything drawn so far. */
  lemma ExpectedStepSlam<P>(x: Msg<P>, s: seq<Msg<P>>)
    requires x.topic == SlamMapposeTopic && LastOn(s, SlamMapposeTopic).None?
    ensures Expected([x] + s) == Expected(s) + [Update(SlamMap, x), Update(Robot, x)]
  {
    LastOnCons(x, s, LidarScanTopic);
    LastOnCons(x, s, SlamMapposeTopic);
    ScanUpdatesCons(x, s);
    SlamUpdatesCons(x, s);
    var a := ScanUpdates(s);
    var u := [Update(SlamMap, x), Update(Robot, x)];
    assert SlamUpdates(s) == [];
    assert SlamUpdates([x] + s) == u;
    assert ScanUpdates([x] + s) == a;
    if LastOn(s, LidarScanTopic).Some? {
      assert Expected(s) == a + [];
      assert Expected([x] + s) == a + u;
    } else {
      assert a == [];
      assert Expected(s) == [];
      assert Expected([x] + s) == u + [];
    }
  }

  /** A message whose topic was already drawn by a newer message changes nothing. */
  lemma ExpectedStepShadowed<P>(x: Msg<P>, s: seq<Msg<P>>)
    requires (x.topic == LidarScanTopic && LastOn(s, LidarScanTopic).Some?) ||
             (x.topic == SlamMapposeTopic && LastOn(s, SlamMapposeTopic).Some?)
    ensures Expected([x] + s) == Expected(s)
  {
    LastOnCons(x, s, LidarScanTopic);
    LastOnCons(x, s, SlamMapposeTopic);
    ScanUpdatesCons(x, s);
    SlamUpdatesCons(x, s);
    assert ScanUpdates([x] + s) == ScanUpdates(s);
    assert SlamUpdates([x] + s) == SlamUpdates(s);
  }

  /** Processing one older message `x` after the newer messages `s`, as the reversed loop does. */
  lemma ExpectedStep<P>(x: Msg<P>, s: seq<Msg<P>>)
    ensures var scanDone := LastOn(s, LidarScanTopic).Some?;
      var slamDone := LastOn(s, SlamMapposeTopic).Some?;
      Expected([x] + s) ==
        if x.topic == LidarScanTopic && !scanDone then Expected(s) + [Update(ScanPoints, x)]
        else if x.topic == SlamMapposeTopic && !slamDone then Expected(s) + [Update(SlamMap, x), Update(Robot, x)]
        else Expected(s)
  {
    if x.topic == LidarScanTopic && LastOn(s, LidarScanTopic).None? {
      ExpectedStepScan(x, s);
    } else if x.topic == SlamMapposeTopic && LastOn(s, SlamMapposeTopic).None? {
      ExpectedStepSlam(x, s);
    } else if x.topic == LidarScanTopic || x.topic == SlamMapposeTopic {
      ExpectedStepShadowed(x, s);
    } else {
      ExpectedIgnoresOthers(x, s);
    }
  }

  /** Once the newer messages `s` hold both topics, older messages change nothing. */
  lemma {:induction false} ExpectedOlderIgnored<P>(older: seq<Msg<P>>, s: seq<Msg<P>>)
    requires LastOn(s, LidarScanTopic).Some? && LastOn(s, SlamMapposeTopic).Some?
    ensures Expected(older + s) == Expected(s)
    decreases |older|
  {
    if older != [] {
      var rest := older[1..] + s;
      ExpectedOlderIgnored(older[1..], s);
      ConsSplit(older, s);
      LastOnAppend(older[1..], s, LidarScanTopic, LastOn(s, LidarScanTopic).value);
      LastOnAppend(older[1..], s, SlamMapposeTopic, LastOn(s, SlamMapposeTopic).value);
      if older[0].topic == LidarScanTopic || older[0].topic == SlamMapposeTopic {
        ExpectedStepShadowed(older[0], rest);
      } else {
        ExpectedIgnoresOthers(older[0], rest);
      }
    } else {
      EmptyAppend(older, s);
    }
  }

  lemma EmptyAppend<T>(a: seq<T>, s: seq<T>)
    requires a == []
    ensures a + s == s
  {
  }

  lemma DropAppend<T>(a: seq<T>, s: seq<T>)
    requires a != []
    ensures (a + s)[1..] == a[1..] + s
  {
  }

  lemma ConsSplit<T>(older: seq<T>, s: seq<T>)
    requires older != []
    ensures older + s == [older[0]] + (older[1..] + s)
  {
  }

  /** A topic already present stays present one place further on when a message is added in front. */
  lemma LastOnConsSome<P>(x: Msg<P>, s: seq<Msg<P>>, topic: string)
    requires LastOn(s, topic).Some?
    ensures LastOn([x] + s, topic) == Some(LastOn(s, topic).value + 1)
  {
    assert ([x] + s)[1..] == s;
    LastOnTail([x] + s, s, topic);
  }

  lemma LastOnTail<P>(m: seq<Msg<P>>, t: seq<Msg<P>>, topic: string)
    requires m != [] && m[1..] == t && LastOn(t, topic).Some?
    ensures LastOn(m, topic) == Some(LastOn(t, topic).value + 1)
  {
  }

  /** A topic present in the newer part has its newest message there, shifted by the older part's length. */
  lemma LastOnAppendStep<P>(older: seq<Msg<P>>, s: seq<Msg<P>>, topic: string, k: nat)
    requires older != [] && LastOn(older[1..] + s, topic) == Some(k)
    ensures LastOn(older + s, topic) == Some(k + 1)
  {
    DropAppend(older, s);
    LastOnTail(older + s, older[1..] + s, topic);
  }

  lemma {:induction false} LastOnAppend<P>(older: seq<Msg<P>>, s: seq<Msg<P>>, topic: string, k: nat)
    requires LastOn(s, topic) == Some(k)
    ensures LastOn(older + s, topic) == Some(|older| + k)
    decreases |older|
  {
    if older != [] {
      LastOnAppend(older[1..], s, topic, k);
      LastOnAppendStep(older, s, topic, |older[1..]| + k);
    } else {
      EmptyAppend(older, s);
    }
  }

  /** One iteration of the reversed loop: the suffix from `k - 1` against the suffix from `k`. */
  lemma Advance<P>(msgs: seq<Msg<P>>, k: nat)
    requires 0 < k <= |msgs|
    ensures var m := msgs[k - 1]; var l := LastOn(msgs[k..], LidarScanTopic);
      LastOn(msgs[k - 1..], LidarScanTopic) ==
        if l.Some? then Some(l.value + 1) else if m.topic == LidarScanTopic then Some(0) else None
    ensures var m := msgs[k - 1]; var l := LastOn(msgs[k..], SlamMapposeTopic);
      LastOn(msgs[k - 1..], SlamMapposeTopic) ==
        if l.Some? then Some(l.value + 1) else if m.topic == SlamMapposeTopic then Some(0) else None
    ensures var m := msgs[k - 1];
      Expected(msgs[k - 1..]) ==
        if m.topic == LidarScanTopic && LastOn(msgs[k..], LidarScanTopic).None? then Expected(msgs[k..]) + [Update(ScanPoints, m)]
        else if m.topic == SlamMapposeTopic && LastOn(msgs[k..], SlamMapposeTopic).None? then Expected(msgs[k..]) + [Update(SlamMap, m), Update(Robot, m)]
        else Expected(msgs[k..])
  {
    var m := msgs[k - 1];
    assert msgs[k - 1..] == [m] + msgs[k..];
    ExpectedStep(m, msgs[k..]);
    LastOnCons(m, msgs[k..], LidarScanTopic);
    LastOnCons(m, msgs[k..], SlamMapposeTopic);
  }

  /**
   * Where the reversed loop ends: either at `k` because the message there completed
   * the second topic, or at the front of the list with at most one topic seen. The
   * suffix then selects what the whole list selects, and `|msgs| - k` messages were
   * examined: down to the older of the two newest indices, or all of them.
   */
  lemma Finished<P>(msgs: seq<Msg<P>>, k: nat)
    requires k <= |msgs|
    requires var i := LastOn(msgs[k..], LidarScanTopic); var j := LastOn(msgs[k..], SlamMapposeTopic);
      (i.Some? && j.Some? && (i.value == 0 || j.value == 0)) || (k == 0 && !(i.Some? && j.Some?))
    ensures Expected(msgs) == Expected(msgs[k..])
    ensures var i := LastOn(msgs, LidarScanTopic); var j := LastOn(msgs, SlamMapposeTopic);
      |msgs| - k == if i.Some? && j.Some? then |msgs| - (if i.value < j.value then i.value else j.value) else |msgs|
  {
    assert msgs == msgs[..k] + msgs[k..];
    var i := LastOn(msgs[k..], LidarScanTopic);
    var j := LastOn(msgs[k..], SlamMapposeTopic);
    if i.Some? && j.Some? {
      ExpectedOlderIgnored(msgs[..k], msgs[k..]);
      LastOnAppend(msgs[..k], msgs[k..], LidarScanTopic, i.value);
      LastOnAppend(msgs[..k], msgs[k..], SlamMapposeTopic, j.value);
    } else {
      assert msgs[k..] == msgs;
    }
  }

  /**
   * `updatePlots(pubSubMessages, ...)`: nothing for an empty list; otherwise walk the
   * list from the newest message, redrawing the scan artist for the first scan message
   * met and the map and robot artists for the first map-and-pose message met, and stop
   * once both are done. `updates` pairs `updatedArtists` with the message each was
   * drawn from; `examined` counts the loop's iterations, and the `break` once both
   * are drawn is the loop's second condition. The same three artists are always
   * returned.
   */
  method UpdatePlots<P>(msgs: seq<Msg<P>>) returns (updates: seq<Update<P>>, examined: nat, returned: (Artist, Artist, Artist))
    ensures returned == (ScanPoints, SlamMap, Robot)
    ensures updates == Expected(msgs)
    ensures msgs == [] ==> updates == [] && examined == 0
    ensures var i := LastOn(msgs, LidarScanTopic); var j := LastOn(msgs, SlamMapposeTopic);
      examined == if i.Some? && j.Some? then |msgs| - (if i.value < j.value then i.value else j.value) else |msgs|
  {
    returned := (ScanPoints, SlamMap, Robot);
    updates := [];
    examined := 0;
    if |msgs| == 0 {
      return;
    }
    var scanUpdated := false;
    var slamUpdated := false;
    var k := |msgs|;
    while k > 0 && !(scanUpdated && slamUpdated)
      invariant 0 <= k <= |msgs| && examined == |msgs| - k
      invariant scanUpdated <==> LastOn(msgs[k..], LidarScanTopic).Some?
      invariant slamUpdated <==> LastOn(msgs[k..], SlamMapposeTopic).Some?
      invariant updates == Expected(msgs[k..])
      invariant scanUpdated && slamUpdated ==>
        LastOn(msgs[k..], LidarScanTopic) == Some(0) || LastOn(msgs[k..], SlamMapposeTopic) == Some(0)
      decreases k
    {
      var m := msgs[k - 1];
      Advance(msgs, k);
      var topic := GetTopic(m);
      if topic == LidarScanTopic && !scanUpdated {
        scanUpdated := true;
        updates := updates + [Update(ScanPoints, m)];
      } else if topic == SlamMapposeTopic && !slamUpdated {
        slamUpdated := true;
        updates := updates + [Update(SlamMap, m), Update(Robot, m)];
      }
      k := k - 1;
      examined := examined + 1;
    }
    Finished(msgs, k);
  }
}
