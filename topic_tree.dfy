/**
 * The broker's topic registry. The nested `{"channels": {...}, "subscribers": set()}`
 * dictionaries are represented by the map from each node's path (its topic segments
 * from the root) to the node's subscriber set; the root is the empty path.
 */
module TopicTree {
  import opened Strings

  type Path = seq<string>
  type Tree = map<Path, set<string>>

  predicate IsPrefix(p: Path, q: Path)
  {
    |p| <= |q| && q[..|p|] == p
  }

  /**
   * The registry's shape: the root exists, every node's parent exists, and no
   * segment contains the `/` separator (segments come from splitting on it).
   */
  predicate Valid(t: Tree)
  {
    && [] in t
    && (forall p :: p in t && p != [] ==> p[..|p| - 1] in t)
    && (forall p :: p in t ==> NoSep(p, '/'))
  }

  /** `{"channels": {}, "subscribers": set()}`. */
  function Empty(): (t: Tree)
    ensures Valid(t) && t.Keys == {[]} && t[[]] == {}
  {
    map[[] := {}]
  }

  lemma {:induction false} PrefixClosed(t: Tree, p: Path, k: nat)
    requires Valid(t) && p in t && k <= |p|
    ensures p[..k] in t
    decreases |p| - k
  {
    if k < |p| {
      var q := p[..|p| - 1];
      assert q in t;
      PrefixClosed(t, q, k);
      assert q[..k] == p[..k];
    } else {
      assert p[..k] == p;
    }
  }

  /** `parseTopic(topic)`: `topic.split("/")`. */
  function ParseTopic(topic: string): (parts: seq<string>)
    ensures |parts| >= 1 && NoSep(parts, '/')
  {
    SplitNoSep(topic, '/');
    Split(topic, '/')
  }

  /** The node `addSubscriber` and `removeSubscriber` act on: the root for `""`, else the parsed path. */
  function TargetPath(topic: string): (p: Path)
    ensures NoSep(p, '/')
    ensures topic == "" ==> p == []
    ensures topic != "" ==> p == ParseTopic(topic)
  {
    var parts := ParseTopic(topic);
    SplitNonEmpty(topic);
    if parts == [""] then [] else parts
  }

  /** Only the empty topic splits into the single empty segment. */
  lemma SplitNonEmpty(topic: string)
    ensures topic != "" ==> Split(topic, '/') != [""]
  {
    JoinSplit(topic, '/');
  }

  /** How far `getTopicTargets` walks down `parts` from segment `i`: it stops at the first missing node. */
  function Reach(t: Tree, parts: Path, i: nat): (r: nat)
    requires i <= |parts| && parts[..i] in t
    ensures i <= r <= |parts|
    ensures forall j :: i <= j <= r ==> parts[..j] in t
    ensures r == |parts| || parts[..r + 1] !in t
    decreases |parts| - i
  {
    if i < |parts| && parts[..i + 1] in t then Reach(t, parts, i + 1) else i
  }

  /** The subscribers of the nodes at `parts[..0]` through `parts[..k]`. */
  function UnionAlong(t: Tree, parts: Path, k: nat): (u: set<string>)
    requires k <= |parts| && forall j :: 0 <= j <= k ==> parts[..j] in t
  {
    if k == 0 then t[parts[..0]] else UnionAlong(t, parts, k - 1) + t[parts[..k]]
  }

  lemma {:induction false} UnionAlongIff(t: Tree, parts: Path, k: nat, id: string)
    requires k <= |parts| && forall j :: 0 <= j <= k ==> parts[..j] in t
    ensures id in UnionAlong(t, parts, k) <==> exists j :: 0 <= j <= k && id in t[parts[..j]]
  {
    if k > 0 {
      UnionAlongIff(t, parts, k - 1, id);
    }
  }

  /** `getTopicTargets(topic)`: the root's subscribers and those along the longest existing prefix. */
  function Targets(t: Tree, topic: string): set<string>
    requires Valid(t)
  {
    var parts := ParseTopic(topic);
    UnionAlong(t, parts, Reach(t, parts, 0))
  }

  /** A walk from `i` reaches at least `m` when every node up to `parts[..m]` exists. */
  lemma {:induction false} ReachCovers(t: Tree, parts: Path, i: nat, m: nat)
    requires i <= m <= |parts| && forall j :: i <= j <= m ==> parts[..j] in t
    ensures Reach(t, parts, i) >= m
    decreases |parts| - i
  {
    if i < m {
      ReachCovers(t, parts, i + 1, m);
    }
  }

  /**
   * A subscriber is a target of a publish on `topic` exactly when it is subscribed
   * at a node whose path is a prefix of the topic's segments: an id at `a` receives
   * `a/b/c`, an id only at `x/y` never receives `x` or `z`.
   */
  lemma TargetsIff(t: Tree, topic: string, id: string)
    requires Valid(t)
    ensures id in Targets(t, topic) <==> exists p :: p in t && id in t[p] && IsPrefix(p, ParseTopic(topic))
  {
    var parts := ParseTopic(topic);
    var r := Reach(t, parts, 0);
    UnionAlongIff(t, parts, r, id);
    if id in Targets(t, topic) {
      var j :| 0 <= j <= r && id in t[parts[..j]];
      assert IsPrefix(parts[..j], parts);
    }
    if exists p :: p in t && id in t[p] && IsPrefix(p, parts) {
      var p :| p in t && id in t[p] && IsPrefix(p, parts);
      forall j | 0 <= j <= |p|
        ensures parts[..j] in t
      {
        PrefixClosed(t, p, j);
        assert p[..j] == parts[..j];
      }
      ReachCovers(t, parts, 0, |p|);
      assert parts[..|p|] == p;
    }
  }

  /** The paths of `q`'s prefixes, the root included. */
  function Prefixes(q: Path): set<Path>
  {
    set k | 0 <= k <= |q| :: q[..k]
  }

  lemma PrefixesIff(q: Path)
    ensures forall p :: p in Prefixes(q) <==> IsPrefix(p, q)
  {
    forall p ensures p in Prefixes(q) <==> IsPrefix(p, q) {
      if IsPrefix(p, q) { assert p == q[..|p|]; }
    }
  }

  /** The walk of `addSubscriber` that creates each missing node along `q` with no subscribers. */
  function Grow(t: Tree, q: Path): (g: Tree)
    requires Valid(t) && NoSep(q, '/')
    ensures Valid(g) && q in g
    ensures forall p :: p in g <==> p in t || IsPrefix(p, q)
    ensures forall p :: p in t ==> g[p] == t[p]
    ensures forall p :: p in g && p !in t ==> g[p] == {}
  {
    PrefixesIff(q);
    assert q[..|q|] == q;
    var g := map p | p in t.Keys + Prefixes(q) :: if p in t then t[p] else {};
    forall p | p in g && p != []
      ensures p[..|p| - 1] in g
    {
      if p !in t {
        assert IsPrefix(p[..|p| - 1], q);
      }
    }
    forall p | p in g
      ensures NoSep(p, '/')
    {
      if p !in t {
        assert forall i :: 0 <= i < |p| ==> p[i] == q[i];
      }
    }
    g
  }

  /**
   * `addSubscriber(topic, s)`: the missing nodes along the target path are created
   * empty and `s` joins the target node's set. It always returns True.
   */
  function AddSub(t: Tree, topic: string, s: string): (r: Tree)
    requires Valid(t)
    ensures Valid(r) && TargetPath(topic) in r
    ensures forall p :: p in r <==> p in t || IsPrefix(p, TargetPath(topic))
    ensures var q := TargetPath(topic); r[q] == (if q in t then t[q] else {}) + {s}
    ensures forall p :: p in t && p != TargetPath(topic) ==> r[p] == t[p]
    ensures forall p :: p in r && p !in t && p != TargetPath(topic) ==> r[p] == {}
  {
    var q := TargetPath(topic);
    var g := Grow(t, q);
    g[q := g[q] + {s}]
  }

  datatype RemoveOutcome = RemovedOk | NoSuchTopic | RemoveRaised

  /**
   * `removeSubscriber(topic, s)`: False without change when a node on the path is
   * missing; raises (`set.remove`) without change when `s` is not at the node;
   * otherwise removes `s` at exactly that node, pruning nothing.
   */
  function RemoveSub(t: Tree, topic: string, s: string): (r: (RemoveOutcome, Tree))
    requires Valid(t)
    ensures Valid(r.1) && r.1.Keys == t.Keys
    ensures r.0 == NoSuchTopic <==> TargetPath(topic) !in t
    ensures r.0 == RemoveRaised <==> TargetPath(topic) in t && s !in t[TargetPath(topic)]
    ensures r.0 != RemovedOk ==> r.1 == t
    ensures r.0 == RemovedOk ==> var q := TargetPath(topic);
      r.1[q] == t[q] - {s} && forall p :: p in t && p != q ==> r.1[p] == t[p]
  {
    var q := TargetPath(topic);
    if q !in t then (NoSuchTopic, t)
    else if s !in t[q] then (RemoveRaised, t)
    else (RemovedOk, t[q := t[q] - {s}])
  }

  /** Subscribing then unsubscribing on the same topic succeeds and restores the node's set. */
  lemma AddThenRemove(t: Tree, topic: string, s: string)
    requires Valid(t)
    ensures var r := RemoveSub(AddSub(t, topic, s), topic, s);
      r.0 == RemovedOk && r.1.Keys == AddSub(t, topic, s).Keys &&
      forall p :: p in t && s !in t[p] ==> r.1[p] == t[p]
  {
  }

  /** After subscribing on `topic`, `s` receives publishes on `topic` and on every sub-topic. */
  lemma AddedReceives(t: Tree, topic: string, s: string, published: string)
    requires Valid(t) && IsPrefix(TargetPath(topic), ParseTopic(published))
    ensures s in Targets(AddSub(t, topic, s), published)
  {
    var r := AddSub(t, topic, s);
    TargetsIff(r, published, s);
  }

  /** A node's topic as `getAllSubscribedTopics` renders it: `"/a/b"`, and `""` for the root. */
  function Render(p: Path): string
  {
    if p == [] then "" else "/" + p[0] + Render(p[1..])
  }

  /** `getAllSubscribedTopics(s)`: the rendered paths of the nodes holding `s`. */
  function SubscribedTopics(t: Tree, s: string): set<string>
  {
    set p | p in t && s in t[p] :: Render(p)
  }

  /** The index of the first `/` in `s`, or its length. */
  function FirstSlash(s: string): (n: nat)
    ensures n <= |s|
  {
    if s == [] || s[0] == '/' then 0 else 1 + FirstSlash(s[1..])
  }

  lemma {:induction false} FirstSlashAfter(a: string, x: string)
    requires '/' !in a && (x == [] || x[0] == '/')
    ensures FirstSlash(a + x) == |a|
  {
    if a == [] {
      assert a + x == x;
    } else {
      assert (a + x)[0] == a[0] && (a + x)[1..] == a[1..] + x;
      assert '/' !in a[1..] by {
        assert forall i :: 0 <= i < |a[1..]| ==> a[1..][i] == a[i + 1];
      }
      FirstSlashAfter(a[1..], x);
    }
  }

  /** A slash-free head followed by nothing or by a `/` is determined by the whole string. */
  lemma SlashFreeSplit(a: string, x: string, b: string, y: string)
    requires '/' !in a && '/' !in b
    requires x == [] || x[0] == '/'
    requires y == [] || y[0] == '/'
    requires a + x == b + y
    ensures a == b && x == y
  {
    FirstSlashAfter(a, x);
    FirstSlashAfter(b, y);
    assert a == (a + x)[..|a|] && b == (b + y)[..|b|];
    assert x == (a + x)[|a|..] && y == (b + y)[|b|..];
  }

  /** Rendering is one-to-one on paths whose segments contain no `/`. */
  lemma {:induction false} RenderInjective(p: Path, q: Path)
    requires NoSep(p, '/') && NoSep(q, '/') && Render(p) == Render(q)
    ensures p == q
  {
    if p != [] && q != [] {
      var rp := Render(p[1..]);
      var rq := Render(q[1..]);
      assert Render(p) == "/" + (p[0] + rp) && Render(q) == "/" + (q[0] + rq);
      assert p[0] + rp == Render(p)[1..] == Render(q)[1..] == q[0] + rq;
      assert '/' !in p[0] && '/' !in q[0];
      assert NoSep(p[1..], '/') && NoSep(q[1..], '/') by {
        assert forall i :: 0 <= i < |p[1..]| ==> p[1..][i] == p[i + 1];
        assert forall i :: 0 <= i < |q[1..]| ==> q[1..][i] == q[i + 1];
      }
      SlashFreeSplit(p[0], rp, q[0], rq);
      RenderInjective(p[1..], q[1..]);
      assert p == [p[0]] + p[1..] && q == [q[0]] + q[1..];
    }
  }

  /** A node's rendered topic is listed exactly when the node holds `s`. */
  lemma SubscribedTopicsIff(t: Tree, s: string, p: Path)
    requires Valid(t) && p in t
    ensures Render(p) in SubscribedTopics(t, s) <==> s in t[p]
  {
    if Render(p) in SubscribedTopics(t, s) {
      var q :| q in t && s in t[q] && Render(q) == Render(p);
      RenderInjective(q, p);
    }
  }

  lemma {:induction false} RenderJoin(p: Path)
    requires p != []
    ensures Render(p) == "/" + Join(p, '/')
  {
    if |p| > 1 {
      RenderJoin(p[1..]);
    }
  }

  /** After subscribing on a topic `"a/b"`, `"/a/b"` is among the subscriber's topics; after `""`, `""`. */
  lemma AddedTopicListed(t: Tree, topic: string, s: string)
    requires Valid(t)
    ensures (if topic == "" then "" else "/" + topic) in SubscribedTopics(AddSub(t, topic, s), s)
  {
    var r := AddSub(t, topic, s);
    var q := TargetPath(topic);
    assert q in r && s in r[q];
    if topic != "" {
      RenderJoin(q);
      JoinSplit(topic, '/');
    }
  }
}
