/** What GrubLegacy.list_kernels promises about order, de-duplication and soundness. */
module GrubLegacyLaws {
  import opened Outcomes
  import opened GuestFs
  import opened GrubLegacyProbe
  import AugeasErrors

  function Elems(s: seq<string>): set<string> { set x | x in s }

  /** The first occurrence of every node not already checked, in order. */
  function Distinct(nodes: seq<string>, checked: set<string>): (r: seq<string>)
    ensures forall i, j :: 0 <= i < j < |r| ==> r[i] != r[j]
    ensures forall x :: x in r <==> x in nodes && x !in checked
    decreases |nodes|
  {
    if nodes == [] then []
    else if nodes[0] in checked then Distinct(nodes[1..], checked)
    else [nodes[0]] + Distinct(nodes[1..], checked + {nodes[0]})
  }

  /** Every node resolved in turn, without de-duplication. */
  function ResolveAll(g: Guest, prefix: string, nodes: seq<string>): Result<seq<string>>
    decreases |nodes|
  {
    if nodes == [] then Ok([])
    else
      match g.augGet(nodes[0])
      case Raise(m) => Fail(AugeasErrors.Diagnose(g, m))
      case Answer(v) =>
        Prepend(if prefix + v in g.existing then [prefix + v] else [], ResolveAll(g, prefix, nodes[1..]))
  }

  /** The loop resolves exactly the distinct unchecked nodes, each at its first occurrence. */
  lemma {:induction false} ResolveIsDistinctThenAll(g: Guest, prefix: string, nodes: seq<string>, checked: set<string>)
    ensures Resolve(g, prefix, nodes, checked) == ResolveAll(g, prefix, Distinct(nodes, checked))
    decreases |nodes|
  {
    if nodes != [] {
      if nodes[0] in checked {
        ResolveIsDistinctThenAll(g, prefix, nodes[1..], checked);
      } else {
        var rest := Distinct(nodes[1..], checked + {nodes[0]});
        assert ([nodes[0]] + rest)[0] == nodes[0] && ([nodes[0]] + rest)[1..] == rest;
        ResolveIsDistinctThenAll(g, prefix, nodes[1..], checked + {nodes[0]});
      }
    }
  }

  /** Each kernel is `prefix + value` of some node, and exists; at most one kernel per node. */
  lemma {:induction false} ResolveAllSound(g: Guest, prefix: string, nodes: seq<string>)
    ensures ResolveAll(g, prefix, nodes).Ok? ==>
      |ResolveAll(g, prefix, nodes).value| <= |nodes|
      && forall k :: k in ResolveAll(g, prefix, nodes).value ==>
           k in g.existing && exists n :: n in nodes && g.augGet(n).Answer? && k == prefix + g.augGet(n).value
    decreases |nodes|
  {
    if nodes != [] {
      ResolveAllSound(g, prefix, nodes[1..]);
      if ResolveAll(g, prefix, nodes).Ok? {
        forall k | k in ResolveAll(g, prefix, nodes).value
          ensures k in g.existing && exists n :: n in nodes && g.augGet(n).Answer? && k == prefix + g.augGet(n).value
        {
          if k !in ResolveAll(g, prefix, nodes[1..]).value {
            assert k == prefix + g.augGet(nodes[0]).value;
          } else {
            var n :| n in nodes[1..] && g.augGet(n).Answer? && k == prefix + g.augGet(n).value;
            assert n in nodes;
          }
        }
      }
    }
  }

  /** A missing kernel never makes the listing fail: only a failing aug_get does. */
  lemma {:induction false} ResolveAllFailsOnlyOnQuery(g: Guest, prefix: string, nodes: seq<string>)
    ensures ResolveAll(g, prefix, nodes).Fail? <==> exists n :: n in nodes && g.augGet(n).Raise?
    decreases |nodes|
  {
    if nodes != [] {
      ResolveAllFailsOnlyOnQuery(g, prefix, nodes[1..]);
      if exists n :: n in nodes[1..] && g.augGet(n).Raise? {
        var n :| n in nodes[1..] && g.augGet(n).Raise?;
        assert n in nodes;
      }
      if exists n :: n in nodes && g.augGet(n).Raise? {
        var n :| n in nodes && g.augGet(n).Raise?;
        assert n == nodes[0] || n in nodes[1..];
      }
    }
  }

  lemma {:induction false} DistinctCount(s: seq<string>)
    requires forall i, j :: 0 <= i < j < |s| ==> s[i] != s[j]
    ensures |Elems(s)| == |s|
    decreases |s|
  {
    if s != [] {
      DistinctCount(s[1..]);
      assert Elems(s) == Elems(s[1..]) + {s[0]};
      assert s[0] !in Elems(s[1..]);
    }
  }

  lemma {:induction false} SubsetCount(a: set<string>, b: set<string>)
    requires a <= b
    ensures |a| <= |b|
    decreases |b|
  {
    if b != {} {
      var x :| x in b;
      SubsetCount(a - {x}, b - {x});
    }
  }

  /** The resolution order of the listing: one result per distinct node, in first-occurrence order. */
  lemma KernelsResolveDistinctNodes(g: Guest, conf: string, prefix: string)
    requires KernelNodes(g, conf).Ok?
    ensures var nodes := KernelNodes(g, conf).value;
      Kernels(g, conf, prefix) == ResolveAll(g, prefix, Distinct(nodes, {}))
      && |Distinct(nodes, {})| <= |Elems(nodes)|
  {
    var nodes := KernelNodes(g, conf).value;
    ResolveIsDistinctThenAll(g, prefix, nodes, {});
    var d := Distinct(nodes, {});
    DistinctCount(d);
    SubsetCount(Elems(d), Elems(nodes));
  }

  /**
   * Soundness and bound: every listed kernel is `prefix + aug_get(n)` for a
   * listed node `n` and exists, and there are no more kernels than distinct nodes.
   */
  lemma KernelsSound(g: Guest, conf: string, prefix: string)
    ensures Kernels(g, conf, prefix).Ok? ==>
      KernelNodes(g, conf).Ok?
      && |Kernels(g, conf, prefix).value| <= |Elems(KernelNodes(g, conf).value)|
      && forall k :: k in Kernels(g, conf, prefix).value ==>
           k in g.existing
           && exists n :: n in KernelNodes(g, conf).value && g.augGet(n).Answer? && k == prefix + g.augGet(n).value
  {
    if Kernels(g, conf, prefix).Ok? {
      var nodes := KernelNodes(g, conf).value;
      KernelsResolveDistinctNodes(g, conf, prefix);
      ResolveAllSound(g, prefix, Distinct(nodes, {}));
    }
  }

  /** Missing-kernel tolerance: once the nodes are listed, only an aug_get failure is fatal. */
  lemma KernelsTolerateMissingFiles(g: Guest, conf: string, prefix: string)
    requires KernelNodes(g, conf).Ok?
    requires forall n :: n in KernelNodes(g, conf).value ==> g.augGet(n).Answer?
    ensures Kernels(g, conf, prefix).Ok?
  {
    var nodes := KernelNodes(g, conf).value;
    KernelsResolveDistinctNodes(g, conf, prefix);
    ResolveAllFailsOnlyOnQuery(g, prefix, Distinct(nodes, {}));
  }

  /** Resolving `a + b` resolves `a`, then `b` with the nodes of `a` already checked. */
  lemma {:induction false} ResolveAppend(g: Guest, prefix: string, a: seq<string>, b: seq<string>, checked: set<string>)
    ensures Resolve(g, prefix, a + b, checked)
         == (var r := Resolve(g, prefix, a, checked);
             if r.Fail? then r else Prepend(r.value, Resolve(g, prefix, b, checked + Elems(a))))
    decreases |a|
  {
    if a == [] {
      assert a + b == b;
      assert checked + Elems(a) == checked;
      PrependTwice([], [], Resolve(g, prefix, b, checked));
    } else {
      assert (a + b)[0] == a[0] && (a + b)[1..] == a[1..] + b;
      if a[0] in checked {
        ResolveAppend(g, prefix, a[1..], b, checked);
        assert checked + Elems(a[1..]) == checked + Elems(a);
      } else if g.augGet(a[0]).Answer? {
        var c := checked + {a[0]};
        ResolveAppend(g, prefix, a[1..], b, c);
        assert c + Elems(a[1..]) == checked + Elems(a);
        var v := g.augGet(a[0]).value;
        var head := if prefix + v in g.existing then [prefix + v] else [];
        var r1 := Resolve(g, prefix, a[1..], c);
        if r1.Ok? {
          PrependTwice(head, r1.value, Resolve(g, prefix, b, checked + Elems(a)));
        }
      }
    }
  }

  /**
   * The default entry's kernels come first: its nodes are resolved before the
   * nodes in file order, which then skip every node the default entry had.
   * When reading the default fails, the result is the file-order result.
   */
  lemma DefaultEntryFirst(g: Guest, conf: string, prefix: string)
    requires g.augMatch(KernelPattern(conf)).Answer?
    ensures var lead := DefaultEntryNodes(g, conf);
            var listed := g.augMatch(KernelPattern(conf)).value;
      Kernels(g, conf, prefix)
        == (var r := Resolve(g, prefix, lead, {});
            if r.Fail? then r else Prepend(r.value, Resolve(g, prefix, listed, Elems(lead))))
    ensures g.augGet(DefaultPath(conf)).Raise?
            || g.augMatch(DefaultKernelPattern(conf, g.augGet(DefaultPath(conf)).value)).Raise? ==>
      Kernels(g, conf, prefix) == Resolve(g, prefix, g.augMatch(KernelPattern(conf)).value, {})
  {
    var lead := DefaultEntryNodes(g, conf);
    var listed := g.augMatch(KernelPattern(conf)).value;
    ResolveAppend(g, prefix, lead, listed, {});
    assert {} + Elems(lead) == Elems(lead);
    if g.augGet(DefaultPath(conf)).Raise?
       || g.augMatch(DefaultKernelPattern(conf, g.augGet(DefaultPath(conf)).value)).Raise? {
      assert lead == [];
      assert Elems(lead) == {};
      PrependTwice([], [], Resolve(g, prefix, listed, {}));
    }
  }

  /**
   * The de-duplication law: when the default entry's node also appears in file
   * order, it is resolved once, first, and never again.
   */
  lemma DefaultNodeOnceAtFront(g: Guest, conf: string, prefix: string)
    requires KernelNodes(g, conf).Ok? && DefaultEntryNodes(g, conf) != []
    ensures var nodes := KernelNodes(g, conf).value;
            var d := Distinct(nodes, {});
      d != [] && d[0] == DefaultEntryNodes(g, conf)[0] && d[0] !in d[1..]
      && Kernels(g, conf, prefix) == ResolveAll(g, prefix, d)
  {
    var nodes := KernelNodes(g, conf).value;
    KernelsResolveDistinctNodes(g, conf, prefix);
    assert nodes[0] == DefaultEntryNodes(g, conf)[0];
    var none: set<string> := {};
    assert nodes[0] !in none && none + {nodes[0]} == {nodes[0]};
    var d := Distinct(nodes, none);
    assert d == [nodes[0]] + Distinct(nodes[1..], {nodes[0]});
  }
}
