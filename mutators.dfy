/** Mutators: the dot-path tree editor. Each path walker follows the recursion of the
    Java code (split at the first dot, look the head up, carry on with the rest and a
    context extended by "head."); each edit returns the edited tree or the exception
    the Java code throws. Edits the Java code makes in place on a node reached from the
    root are written back here at that node's location with Put. */
module Mutators {
  import opened Wrappers
  import opened JsonTree
  import opened Paths
  import opened ObjectMappers
  import Strings

  /** Mutators.getNode: the child a segment selects (an index when numeric, a key otherwise),
      or NotFound when JsonNode.get yields null. */
  function GetNode(root: Json, seg: string, context: string): (r: Result<Json, PathError>)
    ensures r.Success? <==> StepOf(seg).Success? && Child(root, StepOf(seg).value).Some?
    ensures r.Success? ==> r.value == Child(root, StepOf(seg).value).value
    ensures r.Failure? && StepOf(seg).Failure? ==> r.error == NotANumber(seg)
    ensures r.Failure? && StepOf(seg).Success? ==> r.error == NotFound(seg, context)
  {
    if IsNumeric(seg) then
      var index :- ParseInt(seg);
      match GetIndex(root, index)
      case Some(node) => Success(node)
      case None => Failure(NotFound(seg, context))
    else
      match GetField(root, seg)
      case Some(node) => Success(node)
      case None => Failure(NotFound(seg, context))
  }

  /** Mutators.getDeepNode: the node the whole path names; every segment must exist. */
  function GetDeepNode(root: Json, path: string, context: string): Result<Json, PathError>
    decreases |path|
  {
    if '.' in path then
      var (head, rest) := SplitFirst(path);
      var node :- GetNode(root, head, context);
      GetDeepNode(node, rest, context + head + ".")
    else GetNode(root, path, context)
  }

  /** The private Mutators.setValue: only the parent chain must exist; at the final segment an
      array slot is overwritten (or, at or past the end, one element is appended) and an
      object key is created or overwritten. */
  function SetValueAt(root: Json, path: string, node: Json, context: string): Result<Json, PathError>
    decreases |path|
  {
    if '.' in path then
      var (head, rest) := SplitFirst(path);
      var child :- GetNode(root, head, context);
      var newChild :- SetValueAt(child, rest, node, context + head + ".");
      ChildFits(root, StepOf(head).value);
      Success(Place(root, StepOf(head).value, newChild))
    else if root.JArray? then
      if !IsNumeric(path) then Failure(NotAnIndex(path, context))
      else
        var index :- ParseInt(path);
        if index >= |root.items| then Success(Insert(root, index, node))
        else Success(SetIndex(root, index, node))
    else if root.JObject? then Success(SetField(root, path, node))
    else Failure(NotAnObject)
  }

  /** The private Mutators.setNull: the parent chain must exist and the final parent must be an
      object; the final key then holds null, whatever it held before. */
  function SetNullAt(root: Json, path: string, context: string): Result<Json, PathError>
    decreases |path|
  {
    if '.' in path then
      var (head, rest) := SplitFirst(path);
      var child :- GetNode(root, head, context);
      var newChild :- SetNullAt(child, rest, context + head + ".");
      ChildFits(root, StepOf(head).value);
      Success(Place(root, StepOf(head).value, newChild))
    else if root.JObject? then Success(SetField(root, path, JNull))
    else Failure(NotAnObject)
  }

  /** The location of the node a path names, when every segment can be read as a step. */
  function Resolve(root: Json, path: string): Option<Json> {
    match StepsOf(Segments(path))
    case None => None
    case Some(loc) => At(root, loc)
  }

  /** Mutators.copy: resolve the source, split the target at its last dot, resolve the target's
      parent, and write a deep copy of the source there by setValue's final-segment rules, with
      the whole target as the diagnostic context. A target without a dot is first resolved in
      full and then fails when its second token is read. */
  function CopyAt(root: Json, source: string, target: string): Result<Json, PathError> {
    var sourceNode :- GetDeepNode(root, source, "");
    if '.' !in target then
      var _ :- GetDeepNode(root, target, "");
      Failure(NoTargetParent(target))
    else
      var (parentPath, last) := SplitLast(target);
      var parent :- GetDeepNode(root, parentPath, "");
      var newParent :- SetValueAt(parent, last, sourceNode, target);
      GetDeepNodeAt(root, parentPath, "");
      var parentLoc := StepsOf(Segments(parentPath)).value;
      AtCanPut(root, parentLoc);
      Success(Put(root, parentLoc, newParent))
  }

  /** A tree edit after it ran: the tree as it is now and the exception it threw, if any.
      Edits are in place, so a failing group leaves the edits made before the failure. */
  datatype Applied = Applied(tree: Json, failure: Option<PathError>)

  /** The BiConsumer<JsonNode, ObjectMapper> values the Mutators factory methods return, and a
      caller-supplied edit (one that does not throw). */
  datatype Mutator<!V> =
    | SetNull(path: string)
    | SetValue(path: string, value: V)
    | SetAll(path: string, mutators: seq<Mutator<V>>)
    | Copy(source: string, target: string)
    | Custom(edit: (Json, Mapper<V>) -> Json)

  /** A single edit either succeeds or throws before touching the tree. */
  function Outcome(r: Result<Json, PathError>, root: Json): Applied {
    match r
    case Success(t) => Applied(t, None)
    case Failure(e) => Applied(root, Some(e))
  }

  /** BiConsumer.accept(root, objectMapper). */
  function Apply<V>(m: Mutator<V>, root: Json, mapper: Mapper<V>): Applied
    decreases m
  {
    match m
    case SetNull(p) => Outcome(SetNullAt(root, p, ""), root)
    case SetValue(p, v) => Outcome(SetValueAt(root, p, mapper.valueToTree(v), ""), root)
    case SetAll(p, ms) =>
      (match GetDeepNode(root, p, "")
       case Failure(e) => Applied(root, Some(e))
       case Success(node) =>
         var a := ApplyAll(ms, node, mapper);
         GetDeepNodeAt(root, p, "");
         var loc := StepsOf(Segments(p)).value;
         AtCanPut(root, loc);
         Applied(Put(root, loc, a.tree), a.failure))
    case Copy(s, t) => Outcome(CopyAt(root, s, t), root)
    case Custom(f) => Applied(f(root, mapper), None)
  }

  /** The mutators of a group applied in order to one node, stopping at the first that throws. */
  function ApplyAll<V>(ms: seq<Mutator<V>>, node: Json, mapper: Mapper<V>): Applied
    decreases ms
  {
    if ms == [] then Applied(node, None)
    else
      var a := Apply(ms[0], node, mapper);
      if a.failure.Some? then a else ApplyAll(ms[1..], a.tree, mapper)
  }

  /** GetDeepNode follows exactly the steps the path's segments name. */
  lemma {:induction false} GetDeepNodeAt(root: Json, path: string, context: string)
    ensures GetDeepNode(root, path, context).ToOption() == Resolve(root, path)
    ensures GetDeepNode(root, path, context).Success? ==> StepsOf(Segments(path)).Some?
    decreases |path|
  {
    if '.' in path {
      var (head, rest) := SplitFirst(path);
      var segs := Segments(path);
      assert segs[0] == head && segs[1..] == Segments(rest);
      match GetNode(root, head, context)
      case Failure(_) =>
      case Success(child) =>
        GetDeepNodeAt(child, rest, context + head + ".");
    } else {
      assert Segments(path) == [path];
      assert Segments(path)[1..] == [];
      match StepOf(path)
      case Failure(_) =>
      case Success(s) =>
        assert StepsOf(Segments(path)[1..]) == Some([]);
        assert [s] + [] == [s];
        assert StepsOf(Segments(path)) == Some([s]);
        assert [s][1..] == [];
        assert At(root, [s]) == Child(root, s);
    }
  }

  /** The segments before the last one: the parent chain setValue, setNull and copy resolve. */
  function ParentSegments(path: string): seq<string> {
    Segments(path)[..|Segments(path)| - 1]
  }

  function LastSegment(path: string): string {
    Segments(path)[|Segments(path)| - 1]
  }

  function ParentLocation(path: string): Option<seq<Step>> {
    StepsOf(ParentSegments(path))
  }

  /** The node the parent chain of a path names. */
  function ParentOf(root: Json, path: string): Option<Json> {
    match ParentLocation(path)
    case None => None
    case Some(loc) => At(root, loc)
  }

  /** The step setValue's final segment writes in its parent: an array index, capped at the
      array's length because ArrayNode.insert appends there, or any key of an object. */
  function SlotOf(parent: Json, seg: string): Option<Step> {
    if parent.JArray? then
      if IsNumeric(seg) && DecimalValue(seg) <= MaxInt then
        Some(Index(if DecimalValue(seg) < |parent.items| then DecimalValue(seg) else |parent.items|))
      else None
    else if parent.JObject? then Some(Key(seg))
    else None
  }

  /** The location setValue(path, ...) writes at, when it succeeds. */
  function ValueLocation(root: Json, path: string): Option<seq<Step>> {
    match ParentLocation(path)
    case None => None
    case Some(loc) =>
      match At(root, loc)
      case None => None
      case Some(parent) =>
        match SlotOf(parent, LastSegment(path))
        case None => None
        case Some(s) => Some(loc + [s])
  }

  /** The location setNull(path) writes at, when it succeeds: the final key of an object parent. */
  function NullLocation(root: Json, path: string): Option<seq<Step>> {
    match ParentLocation(path)
    case None => None
    case Some(loc) =>
      match At(root, loc)
      case None => None
      case Some(parent) => if parent.JObject? then Some(loc + [Key(LastSegment(path))]) else None
  }

  /** The segments of "head.rest" are head, then the segments of rest. */
  lemma SegmentsOfDotted(path: string)
    requires '.' in path
    ensures var (head, rest) := SplitFirst(path);
            && Segments(path) == [head] + Segments(rest)
            && ParentSegments(path) == [head] + ParentSegments(rest)
            && LastSegment(path) == LastSegment(rest)
  {
  }

  lemma ParentLocationOfDotted(path: string)
    requires '.' in path
    ensures var (head, rest) := SplitFirst(path);
            ParentLocation(path) ==
              (if StepOf(head).Success? && ParentLocation(rest).Some?
               then Some([StepOf(head).value] + ParentLocation(rest).value)
               else None)
  {
    var (head, rest) := SplitFirst(path);
    SegmentsOfDotted(path);
    var ps := ParentSegments(path);
    assert ps[0] == head && ps[1..] == ParentSegments(rest);
  }

  lemma AtCons(j: Json, s: Step, loc: seq<Step>)
    ensures At(j, [s] + loc) == (if Child(j, s).Some? then At(Child(j, s).value, loc) else None)
  {
    assert ([s] + loc)[0] == s && ([s] + loc)[1..] == loc;
  }

  /** Walking one step down: what a dotted path writes is what its rest writes below the head. */
  lemma ValueLocationOfDotted(root: Json, path: string)
    requires '.' in path
    ensures var (head, rest) := SplitFirst(path);
            ValueLocation(root, path) ==
              (if StepOf(head).Success? && Child(root, StepOf(head).value).Some?
                  && ValueLocation(Child(root, StepOf(head).value).value, rest).Some?
               then Some([StepOf(head).value] + ValueLocation(Child(root, StepOf(head).value).value, rest).value)
               else None)
  {
    var (head, rest) := SplitFirst(path);
    ParentLocationOfDotted(path);
    SegmentsOfDotted(path);
    if StepOf(head).Success? && ParentLocation(rest).Some? {
      var s, P := StepOf(head).value, ParentLocation(rest).value;
      AtCons(root, s, P);
      if Child(root, s).Some? && At(Child(root, s).value, P).Some? {
        var parent := At(Child(root, s).value, P).value;
        if SlotOf(parent, LastSegment(rest)).Some? {
          ConsAppend(s, P, [SlotOf(parent, LastSegment(rest)).value]);
        }
      }
    }
  }

  lemma NullLocationOfDotted(root: Json, path: string)
    requires '.' in path
    ensures var (head, rest) := SplitFirst(path);
            NullLocation(root, path) ==
              (if StepOf(head).Success? && Child(root, StepOf(head).value).Some?
                  && NullLocation(Child(root, StepOf(head).value).value, rest).Some?
               then Some([StepOf(head).value] + NullLocation(Child(root, StepOf(head).value).value, rest).value)
               else None)
  {
    var (head, rest) := SplitFirst(path);
    ParentLocationOfDotted(path);
    SegmentsOfDotted(path);
    if StepOf(head).Success? && ParentLocation(rest).Some? {
      var s, P := StepOf(head).value, ParentLocation(rest).value;
      AtCons(root, s, P);
      ConsAppend(s, P, [Key(LastSegment(rest))]);
    }
  }

  /** Locations on a path without a dot: the slot in the root itself. */
  lemma LocationsOfSegment(root: Json, path: string)
    requires '.' !in path
    ensures ParentLocation(path) == Some([]) && ParentOf(root, path) == Some(root)
    ensures LastSegment(path) == path
    ensures ValueLocation(root, path) == (if SlotOf(root, path).Some? then Some([SlotOf(root, path).value]) else None)
    ensures NullLocation(root, path) == (if root.JObject? then Some([Key(path)]) else None)
  {
    assert Segments(path) == [path];
    assert ParentSegments(path) == [];
    forall x: Step ensures [] + [x] == [x] {
    }
  }

  /** setValue succeeds exactly when the parent chain exists and the final segment fits the
      parent, and then it writes the node at that one location (Put) and nowhere else. */
  lemma {:induction false} SetValueIsPut(root: Json, path: string, node: Json, context: string)
    ensures SetValueAt(root, path, node, context).Success? <==> ValueLocation(root, path).Some?
    ensures SetValueAt(root, path, node, context).Success? ==>
              && CanPut(root, ValueLocation(root, path).value)
              && SetValueAt(root, path, node, context).value == Put(root, ValueLocation(root, path).value, node)
    decreases |path|
  {
    if '.' in path {
      var (head, rest) := SplitFirst(path);
      ValueLocationOfDotted(root, path);
      match GetNode(root, head, context)
      case Failure(_) =>
      case Success(child) =>
        var s := StepOf(head).value;
        SetValueIsPut(child, rest, node, context + head + ".");
        if ValueLocation(child, rest).Some? {
          var W := ValueLocation(child, rest).value;
          assert ([s] + W)[0] == s && ([s] + W)[1..] == W;
          ChildFits(root, s);
        }
    } else {
      LocationsOfSegment(root, path);
      if root.JArray? && IsNumeric(path) && DecimalValue(path) <= MaxInt {
        var n := DecimalValue(path);
        if n >= |root.items| {
          assert Insert(root, n, node) == Insert(root, |root.items|, node);
        }
      }
    }
  }

  /** setNull succeeds exactly when the parent chain exists and ends at an object, and then it
      puts null at the final key and nowhere else. */
  lemma {:induction false} SetNullIsPut(root: Json, path: string, context: string)
    ensures SetNullAt(root, path, context).Success? <==> NullLocation(root, path).Some?
    ensures SetNullAt(root, path, context).Success? ==>
              && CanPut(root, NullLocation(root, path).value)
              && SetNullAt(root, path, context).value == Put(root, NullLocation(root, path).value, JNull)
    decreases |path|
  {
    if '.' in path {
      var (head, rest) := SplitFirst(path);
      NullLocationOfDotted(root, path);
      match GetNode(root, head, context)
      case Failure(_) =>
      case Success(child) =>
        var s := StepOf(head).value;
        SetNullIsPut(child, rest, context + head + ".");
        if NullLocation(child, rest).Some? {
          var W := NullLocation(child, rest).value;
          assert ([s] + W)[0] == s && ([s] + W)[1..] == W;
          ChildFits(root, s);
        }
    } else {
      LocationsOfSegment(root, path);
    }
  }

  /** A path resolves to the child its last segment selects in the node its parent chain names. */
  lemma ResolveByParent(root: Json, path: string)
    ensures Resolve(root, path) ==
              (if ParentOf(root, path).Some? && StepOf(LastSegment(path)).Success?
               then Child(ParentOf(root, path).value, StepOf(LastSegment(path)).value)
               else None)
  {
    var segs := Segments(path);
    assert segs == ParentSegments(path) + [LastSegment(path)];
    StepsOfAppend(ParentSegments(path), [LastSegment(path)]);
    assert [LastSegment(path)][1..] == [];
    if StepOf(LastSegment(path)).Success? && ParentLocation(path).Some? {
      var t := StepOf(LastSegment(path)).value;
      assert StepsOf([LastSegment(path)]) == Some([t]) by {
        assert [t] + [] == [t];
      }
      AtSnoc(root, ParentLocation(path).value, t);
    }
  }

  /** What setValue changes: the written location holds exactly the node (whole subtree
      included), and every location apart from it holds what it held before. */
  lemma SetValueEffect(root: Json, path: string, node: Json, context: string)
    requires SetValueAt(root, path, node, context).Success?
    ensures ValueLocation(root, path).Some?
    ensures var W := ValueLocation(root, path).value;
            var r := SetValueAt(root, path, node, context).value;
            && (forall rest :: At(r, W + rest) == At(node, rest))
            && (forall other :: Apart(W, other) ==> At(r, other) == At(root, other))
  {
    SetValueIsPut(root, path, node, context);
    var W := ValueLocation(root, path).value;
    forall rest ensures At(Put(root, W, node), W + rest) == At(node, rest) {
      AtPutBelow(root, W, node, rest);
    }
    forall other | Apart(W, other) ensures At(Put(root, W, node), other) == At(root, other) {
      AtPutApart(root, W, node, other);
    }
  }

  /** Reading a written path back: the node is found there, except when the final segment is
      numeric under an object (written as a key, read as an index, so not found) or indexes
      past the end of an array (the node went to the end instead). */
  lemma SetValueReadBack(root: Json, path: string, node: Json, context: string)
    requires SetValueAt(root, path, node, context).Success?
    ensures ParentOf(root, path).Some?
    ensures var parent := ParentOf(root, path).value;
            var last := LastSegment(path);
            Resolve(SetValueAt(root, path, node, context).value, path) ==
              if parent.JObject? && IsNumeric(last) then None
              else if parent.JArray? && IsNumeric(last) && DecimalValue(last) > |parent.items| then None
              else Some(node)
  {
    SetValueIsPut(root, path, node, context);
    PutReadBack(root, path, node);
  }

  /** The read-back of SetValueReadBack stated over Put at the value location. */
  lemma PutReadBack(root: Json, path: string, node: Json)
    requires ValueLocation(root, path).Some? && CanPut(root, ValueLocation(root, path).value)
    ensures ParentOf(root, path).Some?
    ensures var parent := ParentOf(root, path).value;
            var last := LastSegment(path);
            Resolve(Put(root, ValueLocation(root, path).value, node), path) ==
              if parent.JObject? && IsNumeric(last) then None
              else if parent.JArray? && IsNumeric(last) && DecimalValue(last) > |parent.items| then None
              else Some(node)
  {
    var P := ParentLocation(path).value;
    var parent := At(root, P).value;
    var last := LastSegment(path);
    var slot := SlotOf(parent, last).value;
    PutExtend(root, P, slot, node);
    var edited := Place(parent, slot, node);
    var r := Put(root, P + [slot], node);
    AtPut(root, P, edited);
    assert ParentOf(r, path) == Some(edited);
    ResolveByParent(r, path);
    ReadBackInParent(parent, last, node);
  }

  /** Within the parent: the final segment, read back as getNode reads it, finds the node
      written at its slot, except for a numeric key on an object or an index past the end. */
  lemma ReadBackInParent(parent: Json, last: string, node: Json)
    requires SlotOf(parent, last).Some?
    ensures var edited := Place(parent, SlotOf(parent, last).value, node);
            (if StepOf(last).Success? then Child(edited, StepOf(last).value) else None) ==
              if parent.JObject? && IsNumeric(last) then None
              else if parent.JArray? && IsNumeric(last) && DecimalValue(last) > |parent.items| then None
              else Some(node)
  {
  }

  /** What setNull changes: the final key holds null, nothing of the old subtree remains below
      it, and every location apart from it holds what it held before. */
  lemma SetNullEffect(root: Json, path: string, context: string)
    requires SetNullAt(root, path, context).Success?
    ensures NullLocation(root, path).Some?
    ensures var W := NullLocation(root, path).value;
            var r := SetNullAt(root, path, context).value;
            && At(r, W) == Some(JNull)
            && (forall rest :: rest != [] ==> At(r, W + rest) == None)
            && (forall other :: Apart(W, other) ==> At(r, other) == At(root, other))
  {
    SetNullIsPut(root, path, context);
    var W := NullLocation(root, path).value;
    AtPut(root, W, JNull);
    forall rest | rest != [] ensures At(Put(root, W, JNull), W + rest) == None {
      AtPutBelow(root, W, JNull, rest);
    }
    forall other | Apart(W, other) ensures At(Put(root, W, JNull), other) == At(root, other) {
      AtPutApart(root, W, JNull, other);
    }
  }

  /** The target location of a dotted path, through its split at the last dot. */
  lemma ValueLocationByLastDot(root: Json, target: string)
    requires '.' in target
    ensures var (parentPath, last) := SplitLast(target);
            ValueLocation(root, target) ==
              (if Resolve(root, parentPath).Some? && SlotOf(Resolve(root, parentPath).value, last).Some?
               then Some(StepsOf(Segments(parentPath)).value + [SlotOf(Resolve(root, parentPath).value, last).value])
               else None)
  {
    var (parentPath, last) := SplitLast(target);
    SegmentsOfSplitLast(target);
    assert ParentSegments(target) == Segments(parentPath);
    assert LastSegment(target) == last;
  }

  /** copy succeeds exactly when the source resolves, the target has a dot, and setValue could
      write at the target; it then writes the source node there and nowhere else. */
  lemma CopyIsPut(root: Json, source: string, target: string)
    ensures CopyAt(root, source, target).Success? <==>
              Resolve(root, source).Some? && '.' in target && ValueLocation(root, target).Some?
    ensures CopyAt(root, source, target).Success? ==>
              && CanPut(root, ValueLocation(root, target).value)
              && CopyAt(root, source, target).value ==
                   Put(root, ValueLocation(root, target).value, Resolve(root, source).value)
  {
    GetDeepNodeAt(root, source, "");
    if '.' in target && Resolve(root, source).Some? {
      var (parentPath, last) := SplitLast(target);
      ValueLocationByLastDot(root, target);
      GetDeepNodeAt(root, parentPath, "");
      if Resolve(root, parentPath).Some? {
        var parent := Resolve(root, parentPath).value;
        var P := StepsOf(Segments(parentPath)).value;
        var node := Resolve(root, source).value;
        SetValueIsPut(parent, last, node, target);
        LocationsOfSegment(parent, last);
        if SlotOf(parent, last).Some? {
          PutExtend(root, P, SlotOf(parent, last).value, node);
        }
      }
    }
  }

  /** A successful copy writes what setValue at the target would write with the source node. */
  lemma CopyIsSetValueOfSource(root: Json, source: string, target: string)
    requires Resolve(root, source).Some? && '.' in target
    ensures CopyAt(root, source, target).ToOption() ==
              SetValueAt(root, target, Resolve(root, source).value, "").ToOption()
  {
    CopyIsPut(root, source, target);
    SetValueIsPut(root, target, Resolve(root, source).value, "");
  }

  /** The copy is a value of its own: a later write anywhere apart from the target location,
      the source's subtree included, leaves the copy as it was. */
  lemma CopyIsIndependent(root: Json, source: string, target: string, other: seq<Step>, v: Json)
    requires CopyAt(root, source, target).Success?
    requires ValueLocation(root, target).Some? ==>
               var r := CopyAt(root, source, target).value;
               CanPut(r, other) && Apart(ValueLocation(root, target).value, other)
    ensures ValueLocation(root, target).Some?
    ensures var W := ValueLocation(root, target).value;
            var r := CopyAt(root, source, target).value;
            At(Put(r, other, v), W) == Resolve(root, source)
  {
    CopyIsPut(root, source, target);
    var W := ValueLocation(root, target).value;
    var r := CopyAt(root, source, target).value;
    AtPut(root, W, Resolve(root, source).value);
    AtPutApart(r, other, v, W);
  }

  /** getNode finds nothing exactly for an index past the end of an array, a numeric segment on
      an object, a key on an array, a missing key on an object, and any segment on null or a
      scalar. */
  lemma NothingFound(root: Json, seg: string, context: string)
    requires IsNumeric(seg) ==> DecimalValue(seg) <= MaxInt
    ensures GetNode(root, seg, context) == Failure(NotFound(seg, context)) <==>
              || (root.JArray? && IsNumeric(seg) && DecimalValue(seg) >= |root.items|)
              || (root.JObject? && IsNumeric(seg))
              || (root.JArray? && !IsNumeric(seg))
              || (root.JObject? && !IsNumeric(seg) && KeyIndex(root.members, seg) < 0)
              || root.JNull? || root.JValue?
  {
  }

  /** A segment with its context, followed by the end of the path or a dot, is located. */
  lemma SegmentLocates(context: string, seg: string, after: string)
    requires context == "" || context[|context| - 1] == '.'
    requires '.' !in seg
    requires after == "" || after[0] == '.'
    ensures Locates(NotFound(seg, context), context + seg + after)
    ensures Locates(NotAnIndex(seg, context), context + seg + after)
  {
    var full := context + seg + after;
    assert full[..|context| + |seg|] == context + seg;
  }

  /** A failure at the head of a dotted path underlines that head. */
  lemma HeadLocates(context: string, head: string, rest: string)
    requires context == "" || context[|context| - 1] == '.'
    requires '.' !in head
    ensures Locates(NotFound(head, context), context + (head + "." + rest))
  {
    var full := context + (head + "." + rest);
    var n := |context| + |head|;
    assert full[..n] == context + head;
    assert full[n] == '.';
  }

  /** A dotted path with its context is the head's inner context followed by the rest. */
  lemma InnerContext(path: string, context: string)
    requires '.' in path
    ensures var (head, rest) := SplitFirst(path);
            var inner := context + head + ".";
            && inner[|inner| - 1] == '.'
            && context + path == inner + rest
  {
  }

  /** Every getDeepNode diagnostic underlines one whole segment of the path it was given. */
  lemma {:induction false} GetDeepNodeLocates(root: Json, path: string, context: string)
    requires context == "" || context[|context| - 1] == '.'
    ensures GetDeepNode(root, path, context).Failure? ==>
              Locates(GetDeepNode(root, path, context).error, context + path)
    decreases |path|
  {
    if '.' in path {
      var (head, rest) := SplitFirst(path);
      var g := GetNode(root, head, context);
      if g.Failure? {
        assert GetDeepNode(root, path, context) == Failure(g.error);
        HeadLocates(context, head, rest);
      } else {
        InnerContext(path, context);
        GetDeepNodeLocates(g.value, rest, context + head + ".");
      }
    } else {
      SegmentLocates(context, path, "");
      assert context + path + "" == context + path;
    }
  }

  /** Every setValue diagnostic underlines one whole segment of the path it was given. */
  lemma {:induction false} SetValueLocates(root: Json, path: string, node: Json, context: string)
    requires context == "" || context[|context| - 1] == '.'
    ensures SetValueAt(root, path, node, context).Failure? ==>
              Locates(SetValueAt(root, path, node, context).error, context + path)
    decreases |path|
  {
    if '.' in path {
      var (head, rest) := SplitFirst(path);
      var g := GetNode(root, head, context);
      if g.Failure? {
        assert SetValueAt(root, path, node, context) == Failure(g.error);
        HeadLocates(context, head, rest);
      } else {
        InnerContext(path, context);
        SetValueLocates(g.value, rest, node, context + head + ".");
        assert SetValueAt(root, path, node, context).Failure? ==>
                 SetValueAt(root, path, node, context).error == SetValueAt(g.value, rest, node, context + head + ".").error;
      }
    } else {
      SegmentLocates(context, path, "");
      assert context + path + "" == context + path;
    }
  }

  /** Every setNull diagnostic underlines one whole segment of the path it was given. */
  lemma {:induction false} SetNullLocates(root: Json, path: string, context: string)
    requires context == "" || context[|context| - 1] == '.'
    ensures SetNullAt(root, path, context).Failure? ==>
              Locates(SetNullAt(root, path, context).error, context + path)
    decreases |path|
  {
    if '.' in path {
      var (head, rest) := SplitFirst(path);
      var g := GetNode(root, head, context);
      if g.Failure? {
        assert SetNullAt(root, path, context) == Failure(g.error);
        HeadLocates(context, head, rest);
      } else {
        InnerContext(path, context);
        SetNullLocates(g.value, rest, context + head + ".");
        assert SetNullAt(root, path, context).Failure? ==>
                 SetNullAt(root, path, context).error == SetNullAt(g.value, rest, context + head + ".").error;
      }
    }
  }

  /** The exception an edit threw, if any. */
  function ErrorOf(r: Result<Json, PathError>): Option<PathError> {
    if r.Failure? then Some(r.error) else None
  }

  /** The exceptions of setValue's final segment, written in its parent: a non-numeric segment
      on an array is refused as an index, a digit string above Integer.MAX_VALUE fails in
      parseInt, and a parent that is neither an array nor an object fails its cast to
      ObjectNode. Any other final write succeeds. */
  lemma SetValueFinal(parent: Json, seg: string, node: Json, context: string)
    requires '.' !in seg
    ensures parent.JArray? && !IsNumeric(seg) ==>
              SetValueAt(parent, seg, node, context) == Failure(NotAnIndex(seg, context))
    ensures parent.JArray? && IsNumeric(seg) && DecimalValue(seg) > MaxInt ==>
              SetValueAt(parent, seg, node, context) == Failure(NotANumber(seg))
    ensures !parent.JArray? && !parent.JObject? ==>
              SetValueAt(parent, seg, node, context) == Failure(NotAnObject)
    ensures parent.JObject? || (parent.JArray? && IsNumeric(seg) && DecimalValue(seg) <= MaxInt) ==>
              SetValueAt(parent, seg, node, context).Success?
  {
  }

  /** The exception of setNull's final segment: only a parent that is not an object fails, in
      its cast to ObjectNode. */
  lemma SetNullFinal(parent: Json, seg: string, context: string)
    requires '.' !in seg
    ensures ErrorOf(SetNullAt(parent, seg, context)) == if parent.JObject? then None else Some(NotAnObject)
  {
  }

  /** One step of getDeepNode: a dotted path reads its head, then the rest below it. */
  lemma DeepNodeStep(root: Json, head: string, rest: string, context: string)
    requires '.' !in head
    ensures var g := GetNode(root, head, context);
            GetDeepNode(root, head + "." + rest, context) ==
              if g.Failure? then Failure(g.error) else GetDeepNode(g.value, rest, context + head + ".")
  {
    SplitFirstUnique(head + "." + rest, head, rest);
  }

  /** One step of setValue: a dotted path fails at its head or else as the rest fails below it. */
  lemma SetValueStep(root: Json, head: string, rest: string, node: Json, context: string)
    requires '.' !in head
    ensures var g := GetNode(root, head, context);
            ErrorOf(SetValueAt(root, head + "." + rest, node, context)) ==
              if g.Failure? then Some(g.error) else ErrorOf(SetValueAt(g.value, rest, node, context + head + "."))
  {
    SplitFirstUnique(head + "." + rest, head, rest);
  }

  /** One step of setNull, as for setValue. */
  lemma SetNullStep(root: Json, head: string, rest: string, context: string)
    requires '.' !in head
    ensures var g := GetNode(root, head, context);
            ErrorOf(SetNullAt(root, head + "." + rest, context)) ==
              if g.Failure? then Some(g.error) else ErrorOf(SetNullAt(g.value, rest, context + head + "."))
  {
    SplitFirstUnique(head + "." + rest, head, rest);
  }

  /** The parent path of a head and a dotted rest is the head followed by the rest's parent. */
  lemma ParentOfRest(head: string, rest: string, context: string)
    requires '.' !in head && '.' in rest
    ensures SplitLast(head + "." + rest) == (head + "." + SplitLast(rest).0, SplitLast(rest).1)
    ensures context + (head + "." + SplitLast(rest).0) + "." == (context + head + ".") + SplitLast(rest).0 + "."
  {
    SplitLastOfDotted(head, rest);
    var pp := SplitLast(rest).0;
    AppendAssoc(context, head + ".", pp);
    assert context + (head + "." + pp) == (context + head + ".") + pp;
  }

  /** Which exception setValue throws on a dotted path: the one getDeepNode throws walking the
      parent path, or else the one the final segment throws in that parent, with the parent
      path and a dot as its context. */
  lemma {:induction false} SetValueByParent(root: Json, path: string, node: Json, context: string)
    requires '.' in path
    ensures var (parentPath, last) := SplitLast(path);
            var parent := GetDeepNode(root, parentPath, context);
            ErrorOf(SetValueAt(root, path, node, context)) ==
              if parent.Failure? then Some(parent.error)
              else ErrorOf(SetValueAt(parent.value, last, node, context + parentPath + "."))
    decreases |path|
  {
    var (head, rest) := SplitFirst(path);
    SetValueStep(root, head, rest, node, context);
    if '.' in rest {
      ParentOfRest(head, rest, context);
      DeepNodeStep(root, head, SplitLast(rest).0, context);
      var g := GetNode(root, head, context);
      if g.Success? {
        SetValueByParent(g.value, rest, node, context + head + ".");
      }
    } else {
      SplitLastUnique(path, head, rest);
    }
  }

  /** Which exception setNull throws on a dotted path: getDeepNode's on the parent path, or else
      the final segment's in that parent. */
  lemma {:induction false} SetNullByParent(root: Json, path: string, context: string)
    requires '.' in path
    ensures var (parentPath, last) := SplitLast(path);
            var parent := GetDeepNode(root, parentPath, context);
            ErrorOf(SetNullAt(root, path, context)) ==
              if parent.Failure? then Some(parent.error)
              else ErrorOf(SetNullAt(parent.value, last, context + parentPath + "."))
    decreases |path|
  {
    var (head, rest) := SplitFirst(path);
    SetNullStep(root, head, rest, context);
    if '.' in rest {
      ParentOfRest(head, rest, context);
      DeepNodeStep(root, head, SplitLast(rest).0, context);
      var g := GetNode(root, head, context);
      if g.Success? {
        SetNullByParent(g.value, rest, context + head + ".");
      }
    } else {
      SplitLastUnique(path, head, rest);
    }
  }

  /** The exceptions of copy once the source and the target's parent resolve: the final segment
      fails as setValue's would, but with the whole target as context. */
  lemma CopyFinal(root: Json, source: string, target: string)
    requires GetDeepNode(root, source, "").Success? && '.' in target
    requires GetDeepNode(root, SplitLast(target).0, "").Success?
    ensures var parent := GetDeepNode(root, SplitLast(target).0, "").value;
            var last := SplitLast(target).1;
            && (parent.JArray? && !IsNumeric(last) ==> CopyAt(root, source, target) == Failure(NotAnIndex(last, target)))
            && (parent.JArray? && IsNumeric(last) && DecimalValue(last) > MaxInt ==>
                  CopyAt(root, source, target) == Failure(NotANumber(last)))
            && (!parent.JArray? && !parent.JObject? ==> CopyAt(root, source, target) == Failure(NotAnObject))
  {
    var (parentPath, last) := SplitLast(target);
    var parent := GetDeepNode(root, parentPath, "").value;
    SetValueFinal(parent, last, GetDeepNode(root, source, "").value, target);
  }

  /** At the final step a numeric segment is a key to setValue but an index to getNode: on
      {"1": "a"}, "1" cannot be read, yet setValue("1", "b") overwrites that key. */
  lemma NumericKeyOnObject()
    ensures var root := JObject([Member("1", JValue(JString("a")))]);
            var b := JValue(JString("b"));
            && GetDeepNode(root, "1", "") == Failure(NotFound("1", ""))
            && SetValueAt(root, "1", b, "") == Success(JObject([Member("1", b)]))
  {
    var root := JObject([Member("1", JValue(JString("a")))]);
    var b := JValue(JString("b"));
    assert IsNumeric("1") && DecimalValue("1") == 1 && '.' !in "1";
    assert KeyIndex(root.members, "1") == 0;
    assert root.members[0 := Member("1", b)] == [Member("1", b)];
  }

  /** An index past the end of an array appends one element at the end, with no padding. */
  lemma AppendPastTheEnd()
    ensures var x, y, w := JValue(JString("x")), JValue(JString("y")), JValue(JString("w"));
            SetValueAt(JArray([x, y]), "5", w, "") == Success(JArray([x, y, w]))
  {
    var x, y, w := JValue(JString("x")), JValue(JString("y")), JValue(JString("w"));
    assert IsNumeric("5") && DecimalValue("5") == 5 && '.' !in "5";
    assert [x, y] + [w] == [x, y, w];
  }

  /** copy reports a bad final segment with the whole target as its context, so the caret line
      lies past the path line: copying into "list.x" when "list" is an array prints the path
      line "list.xx" with the caret under the second x. */
  lemma CopyContextIsWholeTarget()
    ensures var root := JObject([Member("list", JArray([]))]);
            var e := NotAnIndex("x", "list.x");
            && CopyAt(root, "list", "list.x") == Failure(e)
            && !Locates(e, "list.x")
            && Diagnostic(e) == Header(e) + "\n  " + "list.xx" + "\n  " + "      ^"
  {
    var root := JObject([Member("list", JArray([]))]);
    var e := NotAnIndex("x", "list.x");
    ListIsFound(root);
    SplitLastOfListX();
    XIsNoIndex();
    assert CopyAt(root, "list", "list.x") == Failure(e);
    DiagnosticOfListX();
  }

  /** The message for "x" in the context "list.x": the path line repeats the x, and the caret
      stands under the repeated one. */
  lemma DiagnosticOfListX()
    ensures var e := NotAnIndex("x", "list.x");
            Diagnostic(e) == Header(e) + "\n  " + "list.xx" + "\n  " + "      ^"
  {
    var caret := CaretLine("list.x", "x");
    assert |caret| == 7;
    assert forall i :: 0 <= i < 6 ==> caret[i] == ' ';
    assert caret[6] == '^';
    assert caret == "      ^";
    assert "list.x" + "x" == "list.xx";
  }

  /** The path "list" names the array under the key "list". */
  lemma ListIsFound(root: Json)
    requires root == JObject([Member("list", JArray([]))])
    ensures GetDeepNode(root, "list", "") == Success(JArray([]))
  {
    assert !IsNumeric("list") && '.' !in "list";
    assert KeyIndex(root.members, "list") == 0;
  }

  /** On an array, the final segment "x" is refused as an index, in the context given. */
  lemma XIsNoIndex()
    ensures SetValueAt(JArray([]), "x", JArray([]), "list.x") == Failure(NotAnIndex("x", "list.x"))
  {
    assert !IsNumeric("x") && '.' !in "x";
  }

  /** The target "list.x" splits at its only dot. */
  lemma SplitLastOfListX()
    ensures SplitLast("list.x") == ("list", "x")
  {
    assert "list.x"[5] != '.' && "list.x"[..5] == "list.";
    assert Strings.LastIndexOf("list.x", '.') == 4;
    assert "list.x"[..4] == "list" && "list.x"[5..] == "x";
  }

  /** A copy target without a dot is resolved in full, and then fails as having no parent. */
  lemma CopyTargetWithoutDot(root: Json, source: string, target: string)
    requires '.' !in target
    ensures CopyAt(root, source, target).Failure?
    ensures Resolve(root, source).Some? && Resolve(root, target).Some? ==>
              CopyAt(root, source, target) == Failure(NoTargetParent(target))
  {
    GetDeepNodeAt(root, source, "");
    GetDeepNodeAt(root, target, "");
  }

  /** Running a group in two parts: the second part runs on the first part's tree, unless the
      first part already threw. */
  lemma {:induction false} ApplyAllAppend<V>(ms1: seq<Mutator<V>>, ms2: seq<Mutator<V>>, node: Json, mapper: Mapper<V>)
    ensures ApplyAll(ms1 + ms2, node, mapper) ==
              var a := ApplyAll(ms1, node, mapper);
              if a.failure.Some? then a else ApplyAll(ms2, a.tree, mapper)
  {
    if ms1 == [] {
      assert ms1 + ms2 == ms2;
    } else {
      assert (ms1 + ms2)[0] == ms1[0] && (ms1 + ms2)[1..] == ms1[1..] + ms2;
      var a := Apply(ms1[0], node, mapper);
      if a.failure.None? {
        ApplyAllAppend(ms1[1..], ms2, a.tree, mapper);
      }
    }
  }

  /** A single edit that throws leaves the tree as it was: it fails before writing anything. */
  lemma FailedEditWritesNothing<V>(m: Mutator<V>, root: Json, mapper: Mapper<V>)
    requires !m.SetAll?
    ensures Apply(m, root, mapper).failure.Some? ==> Apply(m, root, mapper).tree == root
  {
  }

  /** When the k-th mutator of a group throws, the group throws its exception, the mutators
      after it never run, and the edits of those before it remain. */
  lemma GroupStopsAtFailure<V>(ms: seq<Mutator<V>>, k: nat, node: Json, mapper: Mapper<V>)
    requires k < |ms|
    requires ApplyAll(ms[..k], node, mapper).failure.None?
    requires Apply(ms[k], ApplyAll(ms[..k], node, mapper).tree, mapper).failure.Some?
    ensures ApplyAll(ms, node, mapper) == Apply(ms[k], ApplyAll(ms[..k], node, mapper).tree, mapper)
    ensures !ms[k].SetAll? ==>
              ApplyAll(ms, node, mapper).tree == ApplyAll(ms[..k], node, mapper).tree
  {
    assert ms == ms[..k] + ms[k..];
    ApplyAllAppend(ms[..k], ms[k..], node, mapper);
    assert ms[k..][0] == ms[k];
  }

  /** A group edits the node its path resolves to and writes the result back there; nothing
      apart from that node changes. When the path does not resolve, nothing runs. */
  lemma GroupEditsOneNode<V>(path: string, ms: seq<Mutator<V>>, root: Json, mapper: Mapper<V>)
    ensures Resolve(root, path).None? ==>
              Apply(SetAll(path, ms), root, mapper).tree == root && Apply(SetAll(path, ms), root, mapper).failure.Some?
    ensures Resolve(root, path).Some? ==>
              && StepsOf(Segments(path)).Some?
              && var loc := StepsOf(Segments(path)).value;
                 var a := ApplyAll(ms, Resolve(root, path).value, mapper);
                 var r := Apply(SetAll(path, ms), root, mapper);
                 && r.failure == a.failure
                 && At(r.tree, loc) == Some(a.tree)
                 && (forall other :: Apart(loc, other) ==> At(r.tree, other) == At(root, other))
  {
    GetDeepNodeAt(root, path, "");
    if Resolve(root, path).Some? {
      var loc := StepsOf(Segments(path)).value;
      var a := ApplyAll(ms, Resolve(root, path).value, mapper);
      AtCanPut(root, loc);
      AtPut(root, loc, a.tree);
      forall other | Apart(loc, other) ensures At(Put(root, loc, a.tree), other) == At(root, other) {
        AtPutApart(root, loc, a.tree, other);
      }
    }
  }

  /** An empty group only checks that its path resolves. */
  lemma EmptyGroup<V>(path: string, root: Json, mapper: Mapper<V>)
    ensures Apply(SetAll(path, []), root, mapper).tree == root
    ensures Apply(SetAll(path, []), root, mapper).failure.None? <==> Resolve(root, path).Some?
  {
    GetDeepNodeAt(root, path, "");
    if Resolve(root, path).Some? {
      PutSame(root, StepsOf(Segments(path)).value);
    }
  }

  /** Grouped setValue as the Java lambda runs it: resolve the common node, then accept each
      mutator on it in turn; an exception ends the loop and leaves the earlier edits. */
  method ApplyGroup<V>(path: string, ms: seq<Mutator<V>>, root: Json, mapper: Mapper<V>) returns (a: Applied)
    ensures a == Apply(SetAll(path, ms), root, mapper)
  {
    match GetDeepNode(root, path, "") {
      case Failure(e) =>
        return Applied(root, Some(e));
      case Success(common) =>
        var node := common;
        var failure: Option<PathError> := None;
        var i := 0;
        while i < |ms| && failure.None?
          invariant 0 <= i <= |ms|
          invariant failure.None? ==> ApplyAll(ms, common, mapper) == ApplyAll(ms[i..], node, mapper)
          invariant failure.Some? ==> ApplyAll(ms, common, mapper) == Applied(node, failure)
        {
          assert ms[i..][0] == ms[i] && ms[i..][1..] == ms[i + 1..];
          var b := Apply(ms[i], node, mapper);
          node, failure := b.tree, b.failure;
          i := i + 1;
        }
        GetDeepNodeAt(root, path, "");
        var loc := StepsOf(Segments(path)).value;
        AtCanPut(root, loc);
        return Applied(Put(root, loc, node), failure);
    }
  }

  /** A mutator built from the factory methods alone whose values map to trees with unique keys. */
  predicate KeepsKeysUnique<V>(m: Mutator<V>, mapper: Mapper<V>)
    decreases m
  {
    match m
    case SetNull(_) => true
    case SetValue(_, v) => WellFormed(mapper.valueToTree(v))
    case SetAll(_, ms) => forall i :: 0 <= i < |ms| ==> KeepsKeysUnique(ms[i], mapper)
    case Copy(_, _) => true
    case Custom(_) => false
  }

  /** The factory-made edits keep every object's keys unique: ObjectNode.set overwrites a key
      that is already there instead of adding a second member. */
  lemma {:induction false} ApplyWellFormed<V>(m: Mutator<V>, root: Json, mapper: Mapper<V>)
    requires WellFormed(root) && KeepsKeysUnique(m, mapper)
    ensures WellFormed(Apply(m, root, mapper).tree)
    decreases m
  {
    match m
    case SetNull(p) =>
      SetNullIsPut(root, p, "");
      if SetNullAt(root, p, "").Success? {
        PutWellFormed(root, NullLocation(root, p).value, JNull);
      }
    case SetValue(p, v) =>
      SetValueIsPut(root, p, mapper.valueToTree(v), "");
      if SetValueAt(root, p, mapper.valueToTree(v), "").Success? {
        PutWellFormed(root, ValueLocation(root, p).value, mapper.valueToTree(v));
      }
    case SetAll(p, ms) =>
      GetDeepNodeAt(root, p, "");
      if Resolve(root, p).Some? {
        var loc := StepsOf(Segments(p)).value;
        AtWellFormed(root, loc);
        ApplyAllWellFormed(ms, Resolve(root, p).value, mapper);
        AtCanPut(root, loc);
        PutWellFormed(root, loc, ApplyAll(ms, Resolve(root, p).value, mapper).tree);
      }
    case Copy(s, t) =>
      CopyIsPut(root, s, t);
      if CopyAt(root, s, t).Success? {
        AtWellFormed(root, StepsOf(Segments(s)).value);
        PutWellFormed(root, ValueLocation(root, t).value, Resolve(root, s).value);
      }
  }

  lemma {:induction false} ApplyAllWellFormed<V>(ms: seq<Mutator<V>>, node: Json, mapper: Mapper<V>)
    requires WellFormed(node) && forall i :: 0 <= i < |ms| ==> KeepsKeysUnique(ms[i], mapper)
    ensures WellFormed(ApplyAll(ms, node, mapper).tree)
    decreases ms
  {
    if ms != [] {
      ApplyWellFormed(ms[0], node, mapper);
      var a := Apply(ms[0], node, mapper);
      if a.failure.None? {
        ApplyAllWellFormed(ms[1..], a.tree, mapper);
      }
    }
  }
}
