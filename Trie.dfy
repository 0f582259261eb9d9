/** The segment trie of `src/support/trie.rs` that stores parameterised routes.

    A `Node` owns its children outright (a map of literal children and an ordered list
    of parameter children), so the tree is modelled as a value: `Insert` returns the tree
    that the in-place insertion leaves behind. */
module Trie {
  import opened Text
  import opened Handler

  /** One path segment: a literal name, or a named parameter with an optional validator.
      A compiled validator is represented by its pattern text (`Regex::to_string`). */
  datatype Field = Field(name: string, isParam: bool, validation: Option<string>)

  /** `impl PartialEq for Field`. */
  predicate FieldEq(a: Field, b: Field)
  {
    if a.name != b.name || a.isParam != b.isParam || a.validation.Some? != b.validation.Some? then false
    else if a.validation.Some? && b.validation.Some? then a.validation.value == b.validation.value
    else true
  }

  /** Field equality compares name, kind and validator text, so it is structural equality. */
  lemma FieldEqIsEquality(a: Field, b: Field)
    ensures FieldEq(a, b) <==> a == b
  {
  }

  /** A trie node: its field, an optional callback, literal children keyed by name and
      parameter children in registration order. (Static-file locations are not modelled.) */
  datatype Node = Node(field: Field, callback: Option<Callback>, named: map<string, Node>, params: seq<Node>)

  function NewNode(f: Field, cb: Option<Callback>): (n: Node)
    ensures n.named == map[] && n.params == []
  {
    Node(f, cb, map[], [])
  }

  /** Outcome of `Node::insert`: the updated node, or the "Key collision!" panic. */
  datatype InsertResult = Inserted(node: Node) | KeyCollision

  /** `Node::insert`: fields are popped off the END of `segs`, so the last field becomes a
      child of `n`, and the remaining fields go below it. */
  function Insert(n: Node, segs: seq<Field>, cb: Callback): (r: InsertResult)
    // the node itself keeps its field and callback
    ensures r.Inserted? ==> r.node.field == n.field && r.node.callback == n.callback
    // a node without literal children never collides
    ensures n.named == map[] ==> r.Inserted?
    // a parameter field never collides and always appends one new branch
    ensures |segs| > 0 && segs[|segs| - 1].isParam ==>
      && r.Inserted? && r.node.named == n.named
      && |r.node.params| == |n.params| + 1 && r.node.params[..|n.params|] == n.params
    // a literal field only touches the literal child of that name
    ensures |segs| > 0 && !segs[|segs| - 1].isParam && r.Inserted? ==>
      && r.node.params == n.params
      && r.node.named.Keys == n.named.Keys + {segs[|segs| - 1].name}
      && forall k :: k in n.named && k != segs[|segs| - 1].name ==> r.node.named[k] == n.named[k]
    // setting a callback on a literal child that already has one is a collision
    ensures (|segs| == 1 && !segs[0].isParam && segs[0].name in n.named
             && n.named[segs[0].name].callback.Some?) ==> r.KeyCollision?
    decreases |segs|, 1
  {
    if |segs| == 0 then Inserted(n)
    else
      var head := segs[|segs| - 1];
      var rest := segs[..|segs| - 1];
      if !head.isParam then
        if head.name in n.named then
          var child := n.named[head.name];
          if |rest| == 0 then
            if child.callback.Some? then KeyCollision
            else Inserted(n.(named := n.named[head.name := child.(callback := Some(cb))]))
          else
            match Insert(child, rest, cb)
            case KeyCollision => KeyCollision
            case Inserted(c) => Inserted(n.(named := n.named[head.name := c]))
        else
          Inserted(n.(named := n.named[head.name := BuildNewChild(head, rest, cb)]))
      else
        Inserted(n.(params := n.params + [BuildNewChild(head, rest, cb)]))
  }

  /** `Node::build_new_child`: a leaf carrying the callback, or a fresh branch node into
      which the remaining fields are inserted. */
  function BuildNewChild(f: Field, rest: seq<Field>, cb: Callback): (c: Node)
    ensures c.field == f
    ensures |rest| == 0 ==> c.callback == Some(cb)
    ensures |rest| > 0 ==> c.callback == None
    decreases |rest|, 2
  {
    if |rest| == 0 then NewNode(f, Some(cb))
    else
      match Insert(NewNode(f, None), rest, cb)
      case Inserted(c) => c
      case KeyCollision => assert false; NewNode(f, None)
  }

  /** `RouteTrie`: a root node for "/". */
  datatype RouteTrie = RouteTrie(root: Node)

  /** `RouteTrie::initialize`. */
  function Initialize(): (t: RouteTrie)
    ensures IsEmpty(t)
    ensures t.root.field == Field("/", false, None) && t.root.callback == None
  {
    RouteTrie(NewNode(Field("/", false, None), None))
  }

  /** `RouteTrie::is_empty`: the root has no children of either kind. */
  predicate IsEmpty(t: RouteTrie)
  {
    |t.root.named| == 0 && |t.root.params| == 0
  }

  /** `RouteTrie::add`. */
  function AddRoute(t: RouteTrie, segs: seq<Field>, cb: Callback): (r: Option<RouteTrie>)
    ensures r.Some? <==> Insert(t.root, segs, cb).Inserted?
    ensures r.Some? ==> r.value.root == Insert(t.root, segs, cb).node
  {
    match Insert(t.root, segs, cb)
    case Inserted(root) => Some(RouteTrie(root))
    case KeyCollision => None
  }

  // ---------------------------------------------------------------------------
  // Lookup

  /** The parameter stack `recursive_find` pushes to: (parameter name, segment) pairs. */
  type Params = seq<(string, string)>

  /** `Vec::pop`, which does nothing on an empty vector. */
  function Pop(st: Params): (r: Params)
    ensures |st| > 0 ==> r == st[..|st| - 1]
  {
    if |st| == 0 then st else st[..|st| - 1]
  }

  /** Whether a parameter node is tried at all for segment `seg`: it needs a name, and its
      validator, if any, must accept the segment. */
  predicate Accepts(f: Field, seg: string, re: Engine)
  {
    f.name != "" && (f.validation.None? || re.matches(f.validation.value, seg))
  }

  /** `RouteTrie::recursive_find` as a function of the entry stack: the callback found and
      the stack on return. The entry stack is always a prefix of the stack on return. */
  function Find(n: Node, segs: seq<string>, stack: Params, re: Engine): (r: (Option<Callback>, Params))
    ensures stack <= r.1
    ensures |segs| == 0 ==> r == (None, stack)
    decreases n, 1
  {
    if |segs| == 0 then (None, stack)
    else if segs[0] in n.named then
      var child := n.named[segs[0]];
      if |segs| == 1 then (child.callback, stack) else Find(child, segs[1..], stack, re)
    else FindParams(n, 0, segs, stack, re)
  }

  /** The loop over `params_children` from index `i` on. */
  function FindParams(n: Node, i: nat, segs: seq<string>, stack: Params, re: Engine): (r: (Option<Callback>, Params))
    requires |segs| > 0 && i <= |n.params|
    ensures stack <= r.1
    decreases n, 0, |n.params| - i
  {
    if i == |n.params| then (None, stack)
    else
      var p := n.params[i];
      if !Accepts(p.field, segs[0], re) then FindParams(n, i + 1, segs, stack, re)
      else
        var pushed := stack + [(p.field.name, segs[0])];
        if |segs| == 1 then (p.callback, pushed)
        else
          var sub := Find(p, segs[1..], pushed, re);
          if sub.0.Some? then sub
          else FindParams(n, i + 1, segs, Pop(sub.1), re)
  }

  /** `recursive_find` itself: the recursion over literal children and the loop over the
      parameter children, pushing a binding before descending and popping it after a
      failed descent. */
  method RecursiveFind(n: Node, segs: seq<string>, stack: Params, re: Engine) returns (cb: Option<Callback>, params: Params)
    ensures (cb, params) == Find(n, segs, stack, re)
    decreases n, 1
  {
    params := stack;
    if |segs| == 0 {
      return None, params;
    }
    var head := segs[0];
    var isTail := |segs| <= 1;
    if head in n.named {
      var child := n.named[head];
      if isTail {
        return child.callback, params;
      }
      cb, params := RecursiveFind(child, segs[1..], params, re);
      return;
    }
    var i := 0;
    while i < |n.params|
      invariant 0 <= i <= |n.params|
      invariant FindParams(n, i, segs, params, re) == Find(n, segs, stack, re)
    {
      var p := n.params[i];
      if p.field.name == "" {
        i := i + 1;
        continue;
      }
      if p.field.validation.Some? && !re.matches(p.field.validation.value, head) {
        i := i + 1;
        continue;
      }
      params := params + [(p.field.name, head)];
      if isTail {
        return p.callback, params;
      }
      var found;
      found, params := RecursiveFind(p, segs[1..], params, re);
      if found.Some? {
        return found, params;
      }
      params := Pop(params);
      i := i + 1;
    }
    return None, params;
  }

  // ---------------------------------------------------------------------------
  // Properties of lookup

  /** A route exists in the trie below `n` for `segs` ending in callback `cb`: at each level
      the segment picks the literal child of that name or a parameter child that accepts it. */
  ghost predicate Routes(n: Node, segs: seq<string>, cb: Callback, re: Engine)
    decreases n, 1
  {
    && |segs| > 0
    && ((segs[0] in n.named && Ends(n.named[segs[0]], segs, cb, re))
        || exists i :: 0 <= i < |n.params| && Accepts(n.params[i].field, segs[0], re)
                                           && Ends(n.params[i], segs, cb, re))
  }

  /** `c` was chosen for `segs[0]`; the route ends at `c` or continues below it. */
  ghost predicate Ends(c: Node, segs: seq<string>, cb: Callback, re: Engine)
    requires |segs| > 0
    decreases c, 2
  {
    if |segs| == 1 then c.callback == Some(cb) else Routes(c, segs[1..], cb, re)
  }

  /** Soundness: any callback lookup returns belongs to a route that matches the segments. */
  lemma {:induction false} FindSound(n: Node, segs: seq<string>, stack: Params, re: Engine)
    requires Find(n, segs, stack, re).0.Some?
    ensures Routes(n, segs, Find(n, segs, stack, re).0.value, re)
    decreases n, 1
  {
    if segs[0] in n.named {
      var child := n.named[segs[0]];
      if |segs| > 1 {
        FindSound(child, segs[1..], stack, re);
      }
    } else {
      FindParamsSound(n, 0, segs, stack, re);
    }
  }

  lemma {:induction false} FindParamsSound(n: Node, i: nat, segs: seq<string>, stack: Params, re: Engine)
    requires |segs| > 0 && i <= |n.params|
    requires FindParams(n, i, segs, stack, re).0.Some?
    ensures exists j :: i <= j < |n.params| && Accepts(n.params[j].field, segs[0], re)
                        && Ends(n.params[j], segs, FindParams(n, i, segs, stack, re).0.value, re)
    ensures Routes(n, segs, FindParams(n, i, segs, stack, re).0.value, re)
    decreases n, 0, |n.params| - i
  {
    var p := n.params[i];
    var cb := FindParams(n, i, segs, stack, re).0.value;
    if !Accepts(p.field, segs[0], re) {
      FindParamsSound(n, i + 1, segs, stack, re);
    } else {
      var pushed := stack + [(p.field.name, segs[0])];
      if |segs| > 1 {
        var sub := Find(p, segs[1..], pushed, re);
        if sub.0.Some? {
          FindSound(p, segs[1..], pushed, re);
          assert Ends(p, segs, cb, re);
        } else {
          FindParamsSound(n, i + 1, segs, Pop(sub.1), re);
        }
      }
    }
  }

  /** If the first segment names a literal child, the parameter children of that level
      play no part in the result. */
  lemma LiteralShadowsParams(n: Node, segs: seq<string>, stack: Params, ps: seq<Node>, re: Engine)
    requires |segs| > 0 && segs[0] in n.named
    ensures Find(n.(params := ps), segs, stack, re) == Find(n, segs, stack, re)
  {
  }

  /** A parameter child without a name, or whose validator rejects the segment, is passed
      over with the stack untouched. */
  lemma RejectedParamSkipped(n: Node, i: nat, segs: seq<string>, stack: Params, re: Engine)
    requires |segs| > 0 && i < |n.params| && !Accepts(n.params[i].field, segs[0], re)
    ensures FindParams(n, i, segs, stack, re) == FindParams(n, i + 1, segs, stack, re)
  {
  }

  /** The names of `fs` from last to first: the order in which `Insert` consumes them. */
  function ReversedNames(fs: seq<Field>): (r: seq<string>)
    ensures |r| == |fs|
    ensures forall i :: 0 <= i < |fs| ==> r[i] == fs[|fs| - 1 - i].name
  {
    if |fs| == 0 then [] else [fs[|fs| - 1].name] + ReversedNames(fs[..|fs| - 1])
  }

  /** Insert then look up: a route of literal fields that was inserted without a collision
      is found again under its names in reverse order, with no bindings pushed. */
  lemma {:induction false} InsertThenFind(n: Node, segs: seq<Field>, cb: Callback, stack: Params, re: Engine)
    requires |segs| > 0
    requires forall i :: 0 <= i < |segs| ==> !segs[i].isParam
    requires Insert(n, segs, cb).Inserted?
    ensures Find(Insert(n, segs, cb).node, ReversedNames(segs), stack, re) == (Some(cb), stack)
    decreases |segs|, 1
  {
    var head := segs[|segs| - 1];
    var rest := segs[..|segs| - 1];
    var path := ReversedNames(segs);
    assert path == [head.name] + ReversedNames(rest);
    var n' := Insert(n, segs, cb).node;
    assert head.name in n'.named;
    if |rest| > 0 {
      assert path[1..] == ReversedNames(rest);
      if head.name in n.named {
        var child := n.named[head.name];
        InsertThenFind(child, rest, cb, stack, re);
      } else {
        BuildThenFind(head, rest, cb, stack, re);
      }
    }
  }

  lemma {:induction false} BuildThenFind(f: Field, rest: seq<Field>, cb: Callback, stack: Params, re: Engine)
    requires |rest| > 0
    requires forall i :: 0 <= i < |rest| ==> !rest[i].isParam
    ensures Find(BuildNewChild(f, rest, cb), ReversedNames(rest), stack, re) == (Some(cb), stack)
    decreases |rest|, 2
  {
    InsertThenFind(NewNode(f, None), rest, cb, stack, re);
  }

  /** Looking up on a freshly initialised trie finds nothing. */
  lemma EmptyTrieFindsNothing(segs: seq<string>, stack: Params, re: Engine)
    ensures Find(Initialize().root, segs, stack, re) == (None, stack)
  {
  }

  /** Insertion consumes the fields from the end, so the route parsed from "/user/:id" hangs
      below the root as the parameter `id` followed by the literal "user": it answers
      "7/user", binding id to "7", and not "user/7". */
  lemma ReversedRouteExample(cb: Callback, re: Engine)
    ensures Insert(Initialize().root, [Field("user", false, None), Field("id", true, None)], cb).Inserted?
    ensures var t := Insert(Initialize().root, [Field("user", false, None), Field("id", true, None)], cb).node;
      && Find(t, ["7", "user"], [], re) == (Some(cb), [("id", "7")])
      && Find(t, ["user", "7"], [], re) == (None, [])
  {
    var user := Field("user", false, None);
    var id := Field("id", true, None);
    var leaf := NewNode(user, Some(cb));
    assert [user][..0] == [];
    assert BuildNewChild(user, [], cb) == leaf;
    assert Insert(NewNode(id, None), [user], cb) == Inserted(NewNode(id, None).(named := map["user" := leaf]));
    var branch := BuildNewChild(id, [user], cb);
    assert branch.named == map["user" := leaf] && branch.params == [];
    assert [user, id][..1] == [user];
    var t := Insert(Initialize().root, [user, id], cb).node;
    assert t.named == map[] && t.params == [branch];
    var ss := ["7", "user"];
    assert ss[1..] == ["user"];
    assert Accepts(branch.field, "7", re) && Accepts(branch.field, "user", re);
    assert [] + [("id", "7")] == [("id", "7")];
    assert Find(branch, ["user"], [("id", "7")], re) == (Some(cb), [("id", "7")]);
    assert FindParams(t, 0, ss, [], re) == (Some(cb), [("id", "7")]);
    var ts := ["user", "7"];
    assert ts[1..] == ["7"];
    assert Find(branch, ["7"], [("id", "user")], re) == (None, [("id", "user")]);
    assert [] + [("id", "user")] == [("id", "user")];
    assert Pop([("id", "user")]) == [];
    assert FindParams(t, 0, ts, [], re) == FindParams(t, 1, ts, [], re);
  }
}
