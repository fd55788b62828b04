/// The host's slot hierarchy, as far as the label engine looks at it, and the
/// eligibility filter that decides whether a text component sits inside the
/// node browser (below a component selector or a slot named "Node Browser").
module Eligibility {
  import opened NetStrings

  /// A slot of the host's scene hierarchy: its name, whether it carries a
  /// `ComponentSelector` component, and its parent (null at the root).
  class Slot {
    var name: string
    var hasComponentSelector: bool
    var parent: Slot?

    constructor (name: string, hasComponentSelector: bool, parent: Slot?)
      ensures this.name == name
      ensures this.hasComponentSelector == hasComponentSelector
      ensures this.parent == parent
    {
      this.name := name;
      this.hasComponentSelector := hasComponentSelector;
      this.parent := parent;
    }
  }

  /// A host `Text` component: the slot it is attached to (null once it is
  /// detached) and its `Content` value.
  class Text {
    const slot: Slot?
    var content: NullableString

    constructor (slot: Slot?, content: NullableString)
      ensures this.slot == slot && this.content == content
    {
      this.slot := slot;
      this.content := content;
    }
  }

  /// The name that marks the node browser's root slot.
  const NodeBrowserName: string := "Node Browser"

  /// `chain` is the sequence of slots visited by following `Parent` from
  /// `start` until null: empty when `start` is null, and otherwise starting
  /// at `start`, linked by `parent` and ending at a root. Its existence is
  /// what makes the host's hierarchy a finite tree above `start`.
  ghost predicate IsWalk(start: Slot?, chain: seq<Slot>)
    reads set i | 0 <= i < |chain| :: chain[i]
  {
    (if chain == [] then start == null
     else chain[0] == start && chain[|chain| - 1].parent == null)
    && forall i :: 0 <= i < |chain| - 1 ==> chain[i].parent == chain[i + 1]
  }

  /// Some slot of the walk carries a `ComponentSelector`.
  ghost predicate SelectorOnWalk(chain: seq<Slot>)
    reads set i | 0 <= i < |chain| :: chain[i]
  {
    exists i :: 0 <= i < |chain| && chain[i].hasComponentSelector
  }

  /// Some slot of the walk is named "Node Browser".
  ghost predicate NodeBrowserOnWalk(chain: seq<Slot>)
    reads set i | 0 <= i < |chain| :: chain[i]
  {
    exists i :: 0 <= i < |chain| && chain[i].name == NodeBrowserName
  }

  /// Walks from `slot` to the root and reports whether any slot on the way,
  /// `slot` included, carries a `ComponentSelector`.
  method IsDescendantOfComponentSelector(slot: Slot?, ghost chain: seq<Slot>) returns (found: bool)
    requires IsWalk(slot, chain)
    ensures found <==> exists i :: 0 <= i < |chain| && chain[i].hasComponentSelector
  {
    var current := slot;
    ghost var k := 0;
    while current != null
      invariant 0 <= k <= |chain|
      invariant IsWalk(current, chain[k..])
      invariant forall j :: 0 <= j < k ==> !chain[j].hasComponentSelector
      decreases |chain| - k
    {
      if current.hasComponentSelector {
        return true;
      }
      current := current.parent;
      k := k + 1;
    }
    return false;
  }

  /// Walks from `slot` to the root and reports whether any slot on the way,
  /// `slot` included, is named "Node Browser".
  method IsDescendantOfNodeBrowser(slot: Slot?, ghost chain: seq<Slot>) returns (found: bool)
    requires IsWalk(slot, chain)
    ensures found <==> exists i :: 0 <= i < |chain| && chain[i].name == NodeBrowserName
  {
    var current := slot;
    ghost var k := 0;
    while current != null
      invariant 0 <= k <= |chain|
      invariant IsWalk(current, chain[k..])
      invariant forall j :: 0 <= j < k ==> chain[j].name != NodeBrowserName
      decreases |chain| - k
    {
      if current.name == NodeBrowserName {
        return true;
      }
      current := current.parent;
      k := k + 1;
    }
    return false;
  }

  /// A text is enhanced only when it exists, is attached to a slot, and that
  /// slot or one of its ancestors carries a `ComponentSelector` or is named
  /// "Node Browser". `chain` is the walk from the text's slot to the root.
  method ShouldEnhanceText(text: Text?, ghost chain: seq<Slot>) returns (eligible: bool)
    requires text != null ==> IsWalk(text.slot, chain)
    ensures eligible <==>
      text != null && text.slot != null &&
      exists i :: 0 <= i < |chain| &&
        (chain[i].hasComponentSelector || chain[i].name == NodeBrowserName)
  {
    if text == null || text.slot == null {
      return false;
    }
    var underSelector := IsDescendantOfComponentSelector(text.slot, chain);
    if underSelector {
      return true;
    }
    var underBrowser := IsDescendantOfNodeBrowser(text.slot, chain);
    if underBrowser {
      return true;
    }
    return false;
  }

  /// The walk from a slot is determined by the hierarchy: two walks from the
  /// same slot are the same sequence.
  lemma {:induction false} WalkUnique(start: Slot?, a: seq<Slot>, b: seq<Slot>)
    requires IsWalk(start, a) && IsWalk(start, b)
    ensures a == b
    decreases |a|
  {
    if a != [] {
      assert b != [];
      assert IsWalk(start.parent, a[1..]);
      assert IsWalk(start.parent, b[1..]);
      WalkUnique(start.parent, a[1..], b[1..]);
      assert a == [a[0]] + a[1..];
      assert b == [b[0]] + b[1..];
    }
  }

  /// A walk, which ends at a root by definition, never visits a slot twice:
  /// requiring `IsWalk` rules out a cyclic hierarchy above the start slot.
  lemma WalkDistinct(start: Slot?, chain: seq<Slot>, i: nat, j: nat)
    requires IsWalk(start, chain)
    requires i < j < |chain|
    ensures chain[i] != chain[j]
  {
    // Were the two equal, the walks below them would agree all the way down,
    // until the later one reaches the root while the earlier one still has
    // a parent.
    var m := |chain| - 1 - j;
    assert chain[i + m].parent == chain[i + m + 1];
    if chain[i] == chain[j] {
      WalkShifted(chain, i, j, m);
    }
  }

  /// Helper for `WalkDistinct`: equal slots have equal walks below them.
  lemma {:induction false} WalkShifted(chain: seq<Slot>, i: nat, j: nat, m: nat)
    requires forall n :: 0 <= n < |chain| - 1 ==> chain[n].parent == chain[n + 1]
    requires i < j && j + m < |chain| && chain[i] == chain[j]
    ensures chain[i + m] == chain[j + m]
  {
    if m > 0 {
      WalkShifted(chain, i, j, m - 1);
    }
  }

  /// Eligibility is inherited: a slot whose walk includes a selector or the
  /// node browser passes that on to every child slot.
  lemma ChildWalk(child: Slot, chain: seq<Slot>)
    requires IsWalk(child.parent, chain)
    ensures IsWalk(child, [child] + chain)
    ensures SelectorOnWalk(chain) ==> SelectorOnWalk([child] + chain)
    ensures NodeBrowserOnWalk(chain) ==> NodeBrowserOnWalk([child] + chain)
  {
    if SelectorOnWalk(chain) {
      var i :| 0 <= i < |chain| && chain[i].hasComponentSelector;
      assert ([child] + chain)[i + 1] == chain[i];
    }
    if NodeBrowserOnWalk(chain) {
      var i :| 0 <= i < |chain| && chain[i].name == NodeBrowserName;
      assert ([child] + chain)[i + 1] == chain[i];
    }
  }

  /// Whether a content string is worth enhancing: not null, not empty and not
  /// only white space.
  function IsTargetNodeText(content: NullableString): (r: bool)
    ensures r <==> content.Str? && exists i :: 0 <= i < |content.s| && !IsWhiteSpace(content.s[i])
  {
    if IsNullOrEmpty(content) then false
    else !IsNullOrWhiteSpace(content)
  }
}
