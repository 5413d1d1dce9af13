/** The Jackson tree a document is parsed into, and the node operations the
    mutators call on it: JsonNode.get(int), JsonNode.get(String), ObjectNode.set,
    ArrayNode.set and ArrayNode.insert.

    A node that the Java code edits in place is identified here by its location,
    the sequence of steps that leads to it from the root; editing the node in place
    is putting a new node at that location (Put). */
module JsonTree {
  import opened Wrappers

  /** The value nodes: TextNode, the numeric nodes and BooleanNode. */
  datatype Scalar = JString(s: string) | JNumber(n: int) | JBool(b: bool)

  /** NullNode, a value node, ArrayNode (0-based) or ObjectNode (insertion-ordered members). */
  datatype Json =
    | JNull
    | JValue(scalar: Scalar)
    | JArray(items: seq<Json>)
    | JObject(members: seq<Member>)

  datatype Member = Member(key: string, value: Json)

  /** An ObjectNode's keys are unique, at every level of the tree. */
  predicate UniqueKeys(ms: seq<Member>) {
    forall i, j :: 0 <= i < j < |ms| ==> ms[i].key != ms[j].key
  }

  predicate WellFormed(j: Json) {
    match j
    case JArray(items) => forall i :: 0 <= i < |items| ==> WellFormed(items[i])
    case JObject(ms) => UniqueKeys(ms) && forall i :: 0 <= i < |ms| ==> WellFormed(ms[i].value)
    case _ => true
  }

  /** The position of key k among an ObjectNode's members, or -1. */
  function KeyIndex(ms: seq<Member>, k: string): (i: int)
    ensures -1 <= i < |ms|
    ensures i >= 0 ==> ms[i].key == k
    ensures forall p :: 0 <= p < |ms| && (i == -1 || p < i) ==> ms[p].key != k
  {
    if |ms| == 0 then -1
    else if ms[0].key == k then 0
    else
      var r := KeyIndex(ms[1..], k);
      if r == -1 then -1 else r + 1
  }

  /** JsonNode.get(int): the element of an ArrayNode, null (None) out of range and on every other node. */
  function GetIndex(j: Json, i: int): (r: Option<Json>)
    ensures r.Some? <==> j.JArray? && 0 <= i < |j.items|
    ensures r.Some? ==> r.value == j.items[i]
  {
    if j.JArray? && 0 <= i < |j.items| then Some(j.items[i]) else None
  }

  /** JsonNode.get(String): the value of an ObjectNode's member, null (None) when absent and on every other node. */
  function GetField(j: Json, k: string): (r: Option<Json>)
    ensures r.Some? <==> j.JObject? && exists p :: 0 <= p < |j.members| && j.members[p].key == k
    ensures r.Some? ==> exists p :: 0 <= p < |j.members| && j.members[p] == Member(k, r.value)
  {
    if j.JObject? then
      var i := KeyIndex(j.members, k);
      if i >= 0 then Some(j.members[i].value) else None
    else None
  }

  /** ObjectNode.set(k, v): overwrite the member in place, or append a new member at the end. */
  function SetField(j: Json, k: string, v: Json): (r: Json)
    requires j.JObject?
    ensures r.JObject?
    ensures GetField(r, k) == Some(v)
    ensures forall k' :: k' != k ==> GetField(r, k') == GetField(j, k')
    ensures GetField(j, k).Some? ==> |r.members| == |j.members|
    ensures GetField(j, k).None? ==> |r.members| == |j.members| + 1 && r.members[|j.members|] == Member(k, v)
    ensures forall p :: 0 <= p < |j.members| ==> r.members[p].key == j.members[p].key
  {
    var i := KeyIndex(j.members, k);
    if i >= 0 then
      var r := JObject(j.members[i := Member(k, v)]);
      OverwriteKeys(j.members, i, v);
      assert r.members[i].key == k;
      assert KeyIndex(r.members, k) == i;
      r
    else
      var r := JObject(j.members + [Member(k, v)]);
      AppendKeys(j.members, Member(k, v));
      r
  }

  /** Overwriting the value of member i moves no key. */
  lemma OverwriteKeys(ms: seq<Member>, i: nat, v: Json)
    requires i < |ms|
    ensures forall k' :: k' != ms[i].key ==> KeyIndex(ms[i := Member(ms[i].key, v)], k') == KeyIndex(ms, k')
  {
    forall k' | k' != ms[i].key ensures KeyIndex(ms[i := Member(ms[i].key, v)], k') == KeyIndex(ms, k') {
      KeyIndexUpdate(ms, i, v, k');
    }
  }

  /** Appending a member moves no key and places a new key at the end. */
  lemma AppendKeys(ms: seq<Member>, m: Member)
    ensures forall k :: KeyIndex(ms + [m], k) == if KeyIndex(ms, k) >= 0 then KeyIndex(ms, k)
                                                 else if m.key == k then |ms| else -1
  {
    forall k ensures KeyIndex(ms + [m], k) == if KeyIndex(ms, k) >= 0 then KeyIndex(ms, k)
                                              else if m.key == k then |ms| else -1 {
      KeyIndexAppend(ms, m, k);
    }
  }

  lemma {:induction false} KeyIndexUpdate(ms: seq<Member>, i: nat, v: Json, k': string)
    requires i < |ms| && k' != ms[i].key
    ensures KeyIndex(ms[i := Member(ms[i].key, v)], k') == KeyIndex(ms, k')
  {
    if i > 0 {
      assert ms[i := Member(ms[i].key, v)][1..] == ms[1..][i - 1 := Member(ms[i].key, v)];
      KeyIndexUpdate(ms[1..], i - 1, v, k');
    }
  }

  lemma {:induction false} KeyIndexAppend(ms: seq<Member>, m: Member, k: string)
    ensures KeyIndex(ms + [m], k) == if KeyIndex(ms, k) >= 0 then KeyIndex(ms, k)
                                     else if m.key == k then |ms| else -1
  {
    if |ms| > 0 {
      assert (ms + [m])[1..] == ms[1..] + [m];
      KeyIndexAppend(ms[1..], m, k);
    }
  }

  /** ArrayNode.set(i, v) on an existing slot. */
  function SetIndex(j: Json, i: nat, v: Json): (r: Json)
    requires j.JArray? && i < |j.items|
    ensures r.JArray? && |r.items| == |j.items|
    ensures GetIndex(r, i) == Some(v)
    ensures forall p :: p != i ==> GetIndex(r, p) == GetIndex(j, p)
  {
    JArray(j.items[i := v])
  }

  /** ArrayNode.insert(i, v): shift the elements from i on, or append when i is at or past the end. */
  function Insert(j: Json, i: nat, v: Json): (r: Json)
    requires j.JArray?
    ensures r.JArray? && |r.items| == |j.items| + 1
    ensures var at := if i < |j.items| then i else |j.items|;
            && GetIndex(r, at) == Some(v)
            && (forall p :: 0 <= p < at ==> GetIndex(r, p) == GetIndex(j, p))
            && (forall p :: at < p <= |j.items| ==> GetIndex(r, p) == GetIndex(j, p - 1))
  {
    if i >= |j.items| then JArray(j.items + [v])
    else JArray(j.items[..i] + [v] + j.items[i..])
  }

  /** One step from a node to a child: an array index or an object key. */
  datatype Step = Index(i: nat) | Key(k: string)

  function Child(j: Json, s: Step): Option<Json> {
    match s
    case Index(i) => GetIndex(j, i)
    case Key(k) => GetField(j, k)
  }

  /** A step can be written at node j: a key of an object, or an index of an array up to its length. */
  predicate Fits(j: Json, s: Step) {
    match s
    case Key(_) => j.JObject?
    case Index(i) => j.JArray? && i <= |j.items|
  }

  /** Write v at step s of j: ObjectNode.set for a key, ArrayNode.set inside the array, ArrayNode.insert at its end. */
  function Place(j: Json, s: Step, v: Json): (r: Json)
    requires Fits(j, s)
    ensures Child(r, s) == Some(v)
    ensures forall t :: t != s ==> Child(r, t) == Child(j, t)
  {
    match s
    case Key(k) => SetField(j, k, v)
    case Index(i) => if i < |j.items| then SetIndex(j, i, v) else Insert(j, i, v)
  }

  /** The node at a location, if every step exists. */
  function At(j: Json, loc: seq<Step>): Option<Json>
    decreases |loc|
  {
    if loc == [] then Some(j)
    else
      match Child(j, loc[0])
      case None => None
      case Some(c) => At(c, loc[1..])
  }

  /** Every step of loc but the last exists, and the last one can be written. */
  predicate CanPut(j: Json, loc: seq<Step>)
    decreases |loc|
  {
    || loc == []
    || (&& Fits(j, loc[0])
        && (|loc| == 1 || (Child(j, loc[0]).Some? && CanPut(Child(j, loc[0]).value, loc[1..]))))
  }

  /** The tree after the node at loc is replaced by (or, for a new last step, created as) v. */
  function Put(j: Json, loc: seq<Step>, v: Json): Json
    requires CanPut(j, loc)
    decreases |loc|
  {
    if loc == [] then v
    else if |loc| == 1 then Place(j, loc[0], v)
    else Place(j, loc[0], Put(Child(j, loc[0]).value, loc[1..], v))
  }

  predicate IsPrefix(a: seq<Step>, b: seq<Step>) {
    |a| <= |b| && b[..|a|] == a
  }

  /** Neither location lies on the path to the other. */
  predicate Apart(a: seq<Step>, b: seq<Step>) {
    !IsPrefix(a, b) && !IsPrefix(b, a)
  }

  lemma ChildFits(j: Json, s: Step)
    requires Child(j, s).Some?
    ensures Fits(j, s)
  {
  }

  /** Below the written location there is exactly the written node. */
  lemma {:induction false} AtPutBelow(j: Json, loc: seq<Step>, v: Json, rest: seq<Step>)
    requires CanPut(j, loc)
    ensures At(Put(j, loc, v), loc + rest) == At(v, rest)
  {
    if loc != [] {
      var r := Put(j, loc, v);
      assert (loc + rest)[0] == loc[0] && (loc + rest)[1..] == loc[1..] + rest;
      if |loc| > 1 {
        var c := Child(j, loc[0]).value;
        AtPutBelow(c, loc[1..], v, rest);
        assert Child(r, loc[0]) == Some(Put(c, loc[1..], v));
        assert At(r, loc + rest) == At(Put(c, loc[1..], v), loc[1..] + rest);
      } else {
        assert loc[1..] + rest == rest;
        assert Child(r, loc[0]) == Some(v);
        assert At(r, loc + rest) == At(v, rest);
      }
    } else {
      assert loc + rest == rest;
    }
  }

  /** The written node is found at its location. */
  lemma AtPut(j: Json, loc: seq<Step>, v: Json)
    requires CanPut(j, loc)
    ensures At(Put(j, loc, v), loc) == Some(v)
  {
    AtPutBelow(j, loc, v, []);
    assert loc + [] == loc;
  }

  /** Every location apart from the written one holds what it held before. */
  lemma {:induction false} AtPutApart(j: Json, loc: seq<Step>, v: Json, other: seq<Step>)
    requires CanPut(j, loc) && Apart(loc, other)
    ensures At(Put(j, loc, v), other) == At(j, other)
  {
    var r := Put(j, loc, v);
    assert loc != [] && other != [];
    if loc[0] != other[0] {
      assert Child(r, other[0]) == Child(j, other[0]);
    } else {
      AtPutApart(Child(j, loc[0]).value, loc[1..], v, other[1..]);
    }
  }

  /** Writing a node where it already is changes nothing. */
  lemma {:induction false} PutSame(j: Json, loc: seq<Step>)
    requires At(j, loc).Some?
    ensures CanPut(j, loc)
    ensures Put(j, loc, At(j, loc).value) == j
  {
    if loc != [] {
      var c := Child(j, loc[0]).value;
      ChildFits(j, loc[0]);
      PutSame(c, loc[1..]);
      PlaceSame(j, loc[0]);
    }
  }

  lemma PlaceSame(j: Json, s: Step)
    requires Child(j, s).Some?
    ensures Fits(j, s) && Place(j, s, Child(j, s).value) == j
  {
    match s
    case Index(i) =>
      assert j.items[i := j.items[i]] == j.items;
    case Key(k) =>
      var i := KeyIndex(j.members, k);
      assert j.members[i := Member(k, j.members[i].value)] == j.members;
  }

  /** Editing the node at P in place is the same as writing below P. */
  lemma {:induction false} PutExtend(j: Json, P: seq<Step>, s: Step, v: Json)
    requires At(j, P).Some? && Fits(At(j, P).value, s)
    ensures CanPut(j, P + [s]) && CanPut(j, P)
    ensures Put(j, P + [s], v) == Put(j, P, Place(At(j, P).value, s, v))
  {
    if P == [] {
      assert P + [s] == [s];
    } else {
      var c := Child(j, P[0]).value;
      ChildFits(j, P[0]);
      assert (P + [s])[0] == P[0] && (P + [s])[1..] == P[1..] + [s];
      PutExtend(c, P[1..], s, v);
      PutSame(c, P[1..]);
    }
  }

  /** A location that exists can be written. */
  lemma {:induction false} AtCanPut(j: Json, loc: seq<Step>)
    requires At(j, loc).Some?
    ensures CanPut(j, loc)
  {
    PutSame(j, loc);
  }

  /** Putting well-formed nodes into a well-formed tree keeps every object's keys unique. */
  lemma {:induction false} PutWellFormed(j: Json, loc: seq<Step>, v: Json)
    requires CanPut(j, loc) && WellFormed(j) && WellFormed(v)
    ensures WellFormed(Put(j, loc, v))
  {
    if loc == [] {
    } else if |loc| == 1 {
      PlaceWellFormed(j, loc[0], v);
    } else {
      var c := Child(j, loc[0]).value;
      ChildWellFormed(j, loc[0]);
      PutWellFormed(c, loc[1..], v);
      PlaceWellFormed(j, loc[0], Put(c, loc[1..], v));
    }
  }

  lemma ChildWellFormed(j: Json, s: Step)
    requires WellFormed(j) && Child(j, s).Some?
    ensures WellFormed(Child(j, s).value)
  {
    if s.Key? {
      var i := KeyIndex(j.members, s.k);
      assert Child(j, s).value == j.members[i].value;
    }
  }

  lemma PlaceWellFormed(j: Json, s: Step, v: Json)
    requires Fits(j, s) && WellFormed(j) && WellFormed(v)
    ensures WellFormed(Place(j, s, v))
  {
    match s
    case Index(i) =>
      var r := Place(j, s, v);
      assert forall p :: 0 <= p < |r.items| ==> r.items[p] == v || r.items[p] in j.items;
    case Key(k) =>
      var r := Place(j, s, v);
      var i := KeyIndex(j.members, k);
      if i >= 0 {
        assert r.members == j.members[i := Member(k, v)];
      } else {
        assert r.members == j.members + [Member(k, v)];
      }
  }

  /** One more step below a location: the child of the node found there. */
  lemma {:induction false} AtSnoc(j: Json, loc: seq<Step>, s: Step)
    ensures At(j, loc + [s]) == (if At(j, loc).Some? then Child(At(j, loc).value, s) else None)
  {
    if loc == [] {
      assert loc + [s] == [s];
      assert [s][1..] == [];
    } else {
      assert (loc + [s])[0] == loc[0] && (loc + [s])[1..] == loc[1..] + [s];
      if Child(j, loc[0]).Some? {
        AtSnoc(Child(j, loc[0]).value, loc[1..], s);
      }
    }
  }

  /** Every node of a well-formed tree is well formed. */
  lemma {:induction false} AtWellFormed(j: Json, loc: seq<Step>)
    requires WellFormed(j) && At(j, loc).Some?
    ensures WellFormed(At(j, loc).value)
    decreases |loc|
  {
    if loc != [] {
      ChildWellFormed(j, loc[0]);
      AtWellFormed(Child(j, loc[0]).value, loc[1..]);
    }
  }
}
