/** The delegation graph: which admins a user has granted, directly or through others. */
module Delegation {
  import opened Wrappers
  import opened Keyring

  /** `child` is an admin, other than the root, whose file names `parent` as grantor. */
  ghost predicate Granted(files: Files, root: string, parent: string, child: string) {
    child in files && files[child].role.Admin? && child != root && files[child].grantedBy == parent
  }

  /** A chain of grants that starts at the root. */
  ghost predicate GrantChain(files: Files, root: string, p: seq<string>) {
    p != [] && Granted(files, root, root, p[0]) && forall i :: 0 < i < |p| ==> Granted(files, root, p[i - 1], p[i])
  }

  ghost predicate Descends(files: Files, root: string, u: string) {
    exists p :: GrantChain(files, root, p) && p[|p| - 1] == u
  }

  lemma ChildDescends(files: Files, root: string, parent: string, child: string)
    requires Granted(files, root, parent, child) && (parent == root || Descends(files, root, parent))
    ensures Descends(files, root, child)
  {
    if parent == root {
      assert GrantChain(files, root, [child]);
    } else {
      var p :| GrantChain(files, root, p) && p[|p| - 1] == parent;
      assert GrantChain(files, root, p + [child]);
    }
  }

  ghost predicate Closed(files: Files, root: string, found: set<string>) {
    forall parent, child :: (parent == root || parent in found) && Granted(files, root, parent, child) ==> child in found
  }

  lemma {:induction false} ClosedHoldsChains(files: Files, root: string, found: set<string>, p: seq<string>)
    requires Closed(files, root, found) && GrantChain(files, root, p)
    ensures p[|p| - 1] in found
    decreases |p|
  {
    if |p| > 1 { ClosedHoldsChains(files, root, found, p[..|p| - 1]); }
  }

  function ChildrenOf(children: map<string, seq<string>>, parent: string): seq<string> {
    if parent in children then children[parent] else []
  }

  method ChildrenByParent(files: Files, root: string) returns (children: map<string, seq<string>>)
    ensures forall parent, child :: child in ChildrenOf(children, parent) <==> Granted(files, root, parent, child)
  {
    children := map[];
    var todo := files.Keys;
    while todo != {}
      invariant todo <= files.Keys
      invariant forall parent, child :: child in ChildrenOf(children, parent) <==> child !in todo && Granted(files, root, parent, child)
    {
      var u :| u in todo;
      var f := files[u];
      ghost var before := children;
      if f.role.Admin? && u != root {
        children := children[f.grantedBy := ChildrenOf(children, f.grantedBy) + [u]];
      }
      forall parent, child
        ensures child in ChildrenOf(children, parent) <==>
          child in ChildrenOf(before, parent) || (child == u && Granted(files, root, parent, u))
      {
      }
      todo := todo - {u};
    }
  }

  /** The grantor is the root or comes earlier. */
  ghost predicate GrantorIn(files: Files, root: string, u: string, found: seq<string>) {
    u in files && u != root && (files[u].grantedBy == root || files[u].grantedBy in found)
  }

  ghost predicate GrantorsFirst(files: Files, root: string, order: seq<string>) {
    forall i :: 0 <= i < |order| ==> GrantorIn(files, root, order[i], order[..i])
  }

  /** The search has visited `order` and still has to look at `stack`. */
  ghost predicate Exploring(files: Files, root: string, order: seq<string>, stack: seq<string>) {
    && Distinct(order) && GrantorsFirst(files, root, order)
    && (forall u :: u in order ==> Descends(files, root, u) && u in files)
    && (forall u :: u in stack ==> Descends(files, root, u) && GrantorIn(files, root, u, order))
    && (forall parent, child :: (parent == root || parent in order) && Granted(files, root, parent, child) ==>
          child in order || child in stack)
  }

  lemma StartExploring(files: Files, root: string, stack: seq<string>)
    requires forall u :: u in stack <==> Granted(files, root, root, u)
    ensures Exploring(files, root, [], stack)
  {
    forall u | u in stack
      ensures Descends(files, root, u)
    {
      ChildDescends(files, root, root, u);
    }
  }

  lemma SkipVisited(files: Files, root: string, order: seq<string>, stack: seq<string>, stack': seq<string>, next: string)
    requires Exploring(files, root, order, stack) && next in order
    requires forall u :: u in stack <==> u in stack' || u == next
    ensures Exploring(files, root, order, stack')
  {
  }

  lemma Visit(files: Files, root: string, order: seq<string>, stack: seq<string>, stack': seq<string>, next: string)
    requires Exploring(files, root, order, stack) && next in stack && next !in order
    requires forall u :: u in stack' ==> u in stack || Granted(files, root, next, u)
    requires forall u :: u in stack && u != next ==> u in stack'
    requires forall u :: Granted(files, root, next, u) && u !in order && u != next ==> u in stack'
    ensures Exploring(files, root, order + [next], stack')
  {
    var order' := order + [next];
    assert forall u :: u in order' <==> u in order || u == next;
    forall i | 0 <= i < |order'|
      ensures GrantorIn(files, root, order'[i], order'[..i])
    {
      assert order'[..i] == order[..i];
      assert order[..|order|] == order;
    }
    forall u | u in stack'
      ensures Descends(files, root, u)
    {
      if u !in stack { ChildDescends(files, root, next, u); }
    }
  }

  lemma DoneExploring(files: Files, root: string, order: seq<string>)
    requires Exploring(files, root, order, [])
    ensures forall u :: u in order <==> Descends(files, root, u)
    ensures Distinct(order) && GrantorsFirst(files, root, order)
  {
    var found := set u | u in order;
    forall u | Descends(files, root, u)
      ensures u in order
    {
      var p :| GrantChain(files, root, p) && p[|p| - 1] == u;
      ClosedHoldsChains(files, root, found, p);
    }
  }

  /** Depth-first search of the grant graph. It terminates on every graph, cyclic ones included, and
      returns every admin that descends from the root, once, grantors before their grantees. */
  method FindAdminDescendants(files: Files, root: string) returns (order: seq<string>)
    ensures forall u :: u in order <==> Descends(files, root, u)
    ensures Distinct(order) && GrantorsFirst(files, root, order)
  {
    var children := ChildrenByParent(files, root);
    var visited: set<string> := {};
    order := [];
    var stack := ChildrenOf(children, root);
    StartExploring(files, root, stack);
    while stack != []
      invariant (forall u :: u in visited <==> u in order) && visited <= files.Keys
      invariant Exploring(files, root, order, stack)
      decreases files.Keys - visited, |stack|
    {
      order, visited, stack := VisitNext(files, root, children, order, visited, stack);
    }
    DoneExploring(files, root, order);
  }

  /** Takes the top of the stack; unless already visited, it is visited and its unvisited children are
      pushed. */
  method VisitNext(files: Files, root: string, children: map<string, seq<string>>, order: seq<string>, visited: set<string>, stack: seq<string>)
    returns (order': seq<string>, visited': set<string>, stack': seq<string>)
    requires forall parent, child :: child in ChildrenOf(children, parent) <==> Granted(files, root, parent, child)
    requires (forall u :: u in visited <==> u in order) && visited <= files.Keys
    requires Exploring(files, root, order, stack) && stack != []
    ensures (forall u :: u in visited' <==> u in order') && visited' <= files.Keys
    ensures visited < visited' || (visited == visited' && |stack'| < |stack|)
    ensures Exploring(files, root, order', stack')
  {
    var next := stack[|stack| - 1];
    assert next in stack;
    var rest := stack[..|stack| - 1];
    assert forall u :: u in stack <==> u in rest || u == next;
    if next in visited {
      SkipVisited(files, root, order, stack, rest, next);
      return order, visited, rest;
    }
    visited' := visited + {next};
    stack' := PushUnvisited(rest, ChildrenOf(children, next), visited');
    Visit(files, root, order, stack, stack', next);
    order' := order + [next];
  }

  method PushUnvisited(stack: seq<string>, children: seq<string>, visited: set<string>) returns (r: seq<string>)
    ensures forall u :: u in r <==> u in stack || (u in children && u !in visited)
  {
    r := stack;
    var i := 0;
    while i < |children|
      invariant 0 <= i <= |children|
      invariant forall u :: u in r <==> u in stack || (u in children[..i] && u !in visited)
    {
      assert children[..i + 1] == children[..i] + [children[i]];
      if children[i] !in visited { r := r + [children[i]]; }
      i := i + 1;
    }
    assert children[..i] == children;
  }
}
