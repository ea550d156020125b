/**
 * GrubLegacy (redhat.py:83-157): recognition of a legacy GRUB configuration
 * and the list of kernels in the order GRUB would try them.
 */
module GrubLegacyProbe {
  import opened Outcomes
  import opened GuestFs
  import AugeasErrors

  const GrubConf := "/boot/grub/grub.conf"
  const MenuLst := "/boot/grub/menu.lst"
  /** Where the configuration is looked for, in order. */
  const ConfCandidates: seq<string> := [GrubConf, MenuLst]
  /** Mount points that make a prefix for in-config paths, most specific first. */
  const PrefixCandidates: seq<string> := ["/boot/grub", "/boot"]

  /** The first candidate that belongs to `present`. */
  function FirstIn(candidates: seq<string>, present: set<string>): (r: Option<string>)
    ensures r.Some? ==> (r.value in present &&
      exists k :: 0 <= k < |candidates| && candidates[k] == r.value
                  && forall j :: 0 <= j < k ==> candidates[j] !in present)
    ensures r.None? ==> forall j :: 0 <= j < |candidates| ==> candidates[j] !in present
    decreases |candidates|
  {
    if candidates == [] then None
    else if candidates[0] in present then Some(candidates[0])
    else
      FirstIn(candidates[1..], present)
  }

  /**
   * What GrubLegacy.__init__ discovers: the configuration file and the prefix
   * to put before the paths written in it.
   */
  function Locate(g: Guest): (r: Result<(string, string)>)
    ensures r.Fail? <==> GrubConf !in g.existing && MenuLst !in g.existing
    ensures r.Fail? ==> r.err == BootLoaderNotFound
    ensures r.Ok? ==> r.value.0 == if GrubConf in g.existing then GrubConf else MenuLst
    ensures r.Ok? ==> r.value.1 == if "/boot/grub" in g.inspectMounts then "/boot/grub"
                                   else if "/boot" in g.inspectMounts then "/boot" else ""
  {
    assert ConfCandidates[0] == GrubConf && ConfCandidates[1] == MenuLst;
    assert PrefixCandidates[0] == "/boot/grub" && PrefixCandidates[1] == "/boot";
    match FirstIn(ConfCandidates, g.existing)
    case None => Fail(BootLoaderNotFound)
    case Some(conf) =>
      var prefix := FirstIn(PrefixCandidates, g.inspectMounts.Keys);
      Ok((conf, if prefix.Some? then prefix.value else ""))
  }

  function DefaultPath(conf: string): string { "/files" + conf + "/default" }
  function DefaultKernelPattern(conf: string, default: string): string
  {
    "/files" + conf + "/title[" + default + "]/kernel"
  }
  function KernelPattern(conf: string): string { "/files" + conf + "/title/kernel" }

  /**
   * The kernel nodes of the default entry; the default index is used verbatim,
   * and any failure of the two queries leaves nothing.
   */
  function DefaultEntryNodes(g: Guest, conf: string): seq<string>
  {
    match g.augGet(DefaultPath(conf))
    case Raise(_) => []
    case Answer(default) =>
      match g.augMatch(DefaultKernelPattern(conf, default))
      case Raise(_) => []
      case Answer(nodes) => nodes
  }

  /** The `paths` list: the default entry's kernel nodes, then every kernel node in file order. */
  function KernelNodes(g: Guest, conf: string): Result<seq<string>>
  {
    match g.augMatch(KernelPattern(conf))
    case Raise(m) => Fail(AugeasErrors.Diagnose(g, m))
    case Answer(nodes) => Ok(DefaultEntryNodes(g, conf) + nodes)
  }

  /** `ks` in front of the kernels of a successful result. */
  function Prepend(ks: seq<string>, r: Result<seq<string>>): Result<seq<string>>
  {
    if r.Ok? then Ok(ks + r.value) else r
  }

  lemma PrependTwice(a: seq<string>, b: seq<string>, r: Result<seq<string>>)
    ensures Prepend(a, Prepend(b, r)) == Prepend(a + b, r)
    ensures Prepend([], r) == r
  {
    if r.Ok? {
      assert a + (b + r.value) == (a + b) + r.value;
      assert [] + r.value == r.value;
    }
  }

  /**
   * The loop over `paths`: a node already in `checked` is skipped; any other is
   * resolved to `prefix + value` and kept when that file exists.
   */
  function Resolve(g: Guest, prefix: string, nodes: seq<string>, checked: set<string>): Result<seq<string>>
    decreases |nodes|
  {
    if nodes == [] then Ok([])
    else if nodes[0] in checked then Resolve(g, prefix, nodes[1..], checked)
    else
      match g.augGet(nodes[0])
      case Raise(m) => Fail(AugeasErrors.Diagnose(g, m))
      case Answer(v) =>
        var kernel := prefix + v;
        Prepend(if kernel in g.existing then [kernel] else [], Resolve(g, prefix, nodes[1..], checked + {nodes[0]}))
  }

  /** What GrubLegacy.list_kernels returns or raises. */
  function Kernels(g: Guest, conf: string, prefix: string): Result<seq<string>>
  {
    match KernelNodes(g, conf)
    case Fail(e) => Fail(e)
    case Ok(nodes) => Resolve(g, prefix, nodes, {})
  }

  class GrubLegacy {
    const g: Guest
    const root: string
    const grubConf: string
    const grubFs: string

    constructor (g: Guest, root: string, grubConf: string, grubFs: string)
      ensures this.g == g && this.root == root && this.grubConf == grubConf && this.grubFs == grubFs
    {
      this.g := g;
      this.root := root;
      this.grubConf := grubConf;
      this.grubFs := grubFs;
    }

    /** GrubLegacy.__init__: the two search loops, raising BootLoaderNotFound without a configuration. */
    static method Recognise(g: Guest, root: string) returns (r: Result<GrubLegacy>)
      ensures r.Fail? ==> Locate(g) == Fail(r.err)
      ensures r.Ok? ==> Locate(g) == Ok((r.value.grubConf, r.value.grubFs))
      ensures r.Ok? ==> r.value.g == g && r.value.root == root
    {
      var conf: Option<string> := None;
      var i := 0;
      while i < |ConfCandidates|
        invariant 0 <= i <= |ConfCandidates|
        invariant conf.None? ==> FirstIn(ConfCandidates, g.existing) == FirstIn(ConfCandidates[i..], g.existing)
        invariant conf.Some? ==> FirstIn(ConfCandidates, g.existing) == conf
      {
        if ConfCandidates[i] in g.existing {
          conf := Some(ConfCandidates[i]);
          break;
        }
        i := i + 1;
      }
      if conf.None? {
        return Fail(BootLoaderNotFound);
      }
      var prefix := "";
      var mounts := g.inspectMounts;
      var j := 0;
      while j < |PrefixCandidates|
        invariant 0 <= j <= |PrefixCandidates|
        invariant prefix == "" ==> FirstIn(PrefixCandidates, mounts.Keys) == FirstIn(PrefixCandidates[j..], mounts.Keys)
        invariant prefix != "" ==> FirstIn(PrefixCandidates, mounts.Keys) == Some(prefix)
      {
        if PrefixCandidates[j] in mounts {
          prefix := PrefixCandidates[j];
          break;
        }
        j := j + 1;
      }
      var b := new GrubLegacy(g, root, conf.value, prefix);
      return Ok(b);
    }

    /** GrubLegacy.list_kernels: build `paths`, then resolve each node once, in order. */
    method ListKernels() returns (r: Result<seq<string>>)
      ensures r == Kernels(g, grubConf, grubFs)
    {
      var paths: seq<string> := [];
      var default := g.augGet(DefaultPath(grubConf));
      if default.Answer? {
        var nodes := g.augMatch(DefaultKernelPattern(grubConf, default.value));
        if nodes.Answer? {
          paths := paths + nodes.value;
        }
      }
      var listed := g.augMatch(KernelPattern(grubConf));
      if listed.Raise? {
        var e := AugeasErrors.AugeasError(g, listed.msg);
        return Fail(e);
      }
      assert paths == DefaultEntryNodes(g, grubConf);
      paths := paths + listed.value;
      assert KernelNodes(g, grubConf) == Ok(paths);
      r := ResolveNodes(paths);
    }

    /** The loop over `paths` with the `checked` dict: each node read once, existing kernels kept in order. */
    method ResolveNodes(paths: seq<string>) returns (r: Result<seq<string>>)
      ensures r == Resolve(g, grubFs, paths, {})
    {
      PrependTwice([], [], Resolve(g, grubFs, paths, {}));
      assert paths[0..] == paths;

      var kernels: seq<string> := [];
      var checked: map<string, bool> := map[];
      assert checked.Keys == {};
      var i := 0;
      while i < |paths|
        invariant 0 <= i <= |paths|
        invariant Resolve(g, grubFs, paths, {}) == Prepend(kernels, Resolve(g, grubFs, paths[i..], checked.Keys))
      {
        var path := paths[i];
        assert paths[i..][0] == path && paths[i..][1..] == paths[i + 1..];
        if path in checked {
          i := i + 1;
          continue;
        }
        ghost var before := checked.Keys;
        checked := checked[path := true];
        assert checked.Keys == before + {path};
        var value := g.augGet(path);
        if value.Raise? {
          var e := AugeasErrors.AugeasError(g, value.msg);
          return Fail(e);
        }
        var kernel := grubFs + value.value;
        PrependTwice(kernels, if kernel in g.existing then [kernel] else [],
                     Resolve(g, grubFs, paths[i + 1..], checked.Keys));
        if kernel in g.existing {
          kernels := kernels + [kernel];
        } else {
          assert kernels + [] == kernels;
        }
        i := i + 1;
      }
      assert kernels + [] == kernels;
      return Ok(kernels);
    }
  }
}
