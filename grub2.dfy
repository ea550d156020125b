/**
 * Grub2, Grub2BIOS and Grub2EFI (redhat.py:160-230): the kernel order the
 * GRUB2 configuration generator uses, and the two ways GRUB2 is recognised.
 */
module Grub2Probe {
  import opened Outcomes
  import opened GuestFs
  import opened Text

  /** The glob patterns the GRUB2 configuration generator enumerates, in order. */
  const KernelGlobs: seq<string> := ["/boot/kernel-*", "/boot/vmlinuz-*", "/vmlinuz-*"]
  const BiosConfig := "/boot/grub2/grub.cfg"
  /** The GPT partition type of an EFI System Partition (UEFI specification, GPT partition types). */
  const EspGuid := "C12A7328-F81F-11D2-BA4B-00A0C93EC93B"
  const CfgSuffix := "/grub.cfg"
  /** What Python raises on `guid == ...` while `guid` was never assigned. */
  const UnboundGuid := "UnboundLocalError: local variable 'guid' referenced before assignment"

  /** `\.(?:dpkg-.*|rpmsave|rpmnew)$` matched at position `i` of `k`. */
  predicate BackupSuffixAt(k: string, i: nat)
  {
    i < |k| && k[i] == '.'
    && (k[i + 1..] == "rpmsave" || k[i + 1..] == "rpmnew" || "dpkg-" <= k[i + 1..])
  }

  /** The filter as written: re.match anchors the pattern at the start of the path. */
  predicate IsBackupAsWritten(k: string)
    ensures IsBackupAsWritten(k) ==> |k| > 0 && k[0] == '.'
  {
    BackupSuffixAt(k, 0)
  }

  /** The intended filter: a packaging-backup suffix anywhere at the end (re.search). */
  predicate IsBackupName(k: string)
  {
    exists i :: 0 <= i < |k| && BackupSuffixAt(k, i)
  }

  /** The glob results in the order the loop visits them. */
  function Candidates(g: Guest): seq<string>
  {
    Glob(g, KernelGlobs[0]) + Glob(g, KernelGlobs[1]) + Glob(g, KernelGlobs[2])
  }

  /** The default kernel goes first when grubby names one. */
  function Lead(default: string): seq<string>
  {
    if |default| > 0 then [default] else []
  }

  predicate Kept(k: string, default: string, isBackup: string -> bool)
  {
    k != default && !isBackup(k)
  }

  /** A subsequence of `b`: `a` is `b` with some elements left out, order kept. */
  predicate IsSubsequence(a: seq<string>, b: seq<string>)
    decreases |b|
  {
    if a == [] then true
    else if b == [] then false
    else if a[|a| - 1] == b[|b| - 1] then IsSubsequence(a[..|a| - 1], b[..|b| - 1])
    else IsSubsequence(a, b[..|b| - 1])
  }

  lemma {:induction false} SubsequenceDropLast(a: seq<string>, b: seq<string>)
    requires a != [] && IsSubsequence(a, b)
    ensures IsSubsequence(a[..|a| - 1], b)
    decreases |b|, 0
  {
    var a' := a[..|a| - 1];
    if a' != [] && b != [] {
      if a[|a| - 1] == b[|b| - 1] {
        SubsequenceGrow(a', b[..|b| - 1], b[|b| - 1]);
        assert b[..|b| - 1] + [b[|b| - 1]] == b;
      } else {
        SubsequenceDropLast(a, b[..|b| - 1]);
        SubsequenceGrow(a', b[..|b| - 1], b[|b| - 1]);
        assert b[..|b| - 1] + [b[|b| - 1]] == b;
      }
    }
  }

  lemma {:induction false} SubsequenceGrow(a: seq<string>, b: seq<string>, x: string)
    requires IsSubsequence(a, b)
    ensures IsSubsequence(a, b + [x])
    decreases |b|, 1
  {
    assert (b + [x])[..|b|] == b;
    if a != [] && a[|a| - 1] == x {
      SubsequenceDropLast(a, b);
    }
  }

  /** The glob results the loop appends, in order. */
  function Others(candidates: seq<string>, default: string, isBackup: string -> bool): seq<string>
    decreases |candidates|
  {
    if candidates == [] then []
    else
      var rest := Others(candidates[..|candidates| - 1], default, isBackup);
      var last := candidates[|candidates| - 1];
      if Kept(last, default, isBackup) then rest + [last] else rest
  }

  /**
   * The appended glob results are exactly those that differ from the default
   * and are not a backup, in glob order; nothing else is removed, so a path
   * that two patterns return appears twice.
   */
  lemma {:induction false} OthersLaws(candidates: seq<string>, default: string, isBackup: string -> bool)
    ensures var r := Others(candidates, default, isBackup);
      IsSubsequence(r, candidates)
      && (forall k :: k in r ==> Kept(k, default, isBackup))
      && (forall k :: Kept(k, default, isBackup) ==> multiset(r)[k] == multiset(candidates)[k])
    decreases |candidates|
  {
    if candidates != [] {
      var init := candidates[..|candidates| - 1];
      var last := candidates[|candidates| - 1];
      var rest := Others(init, default, isBackup);
      OthersLaws(init, default, isBackup);
      assert candidates == init + [last];
      SubsequenceGrow(rest, init, last);
      if Kept(last, default, isBackup) {
        assert (rest + [last])[..|rest|] == rest;
      }
    }
  }

  /**
   * The list Grub2.list_kernels returns: the stripped grubby default when it is
   * non-empty, then the kept glob results in order.
   */
  function Order(default: string, candidates: seq<string>, isBackup: string -> bool): (r: seq<string>)
    ensures |default| > 0 ==> |r| > 0 && r[0] == default
    ensures forall i :: |Lead(default)| <= i < |r| ==> r[i] != default && !isBackup(r[i])
    ensures r[|Lead(default)|..] == Others(candidates, default, isBackup)
    ensures IsSubsequence(r[|Lead(default)|..], candidates)
  {
    var r := Lead(default) + Others(candidates, default, isBackup);
    OthersLaws(candidates, default, isBackup);
    assert r[|Lead(default)|..] == Others(candidates, default, isBackup);
    forall i | |Lead(default)| <= i < |r| ensures r[i] != default && !isBackup(r[i]) {
      assert r[i] in Others(candidates, default, isBackup);
    }
    r
  }

  /** What Grub2.list_kernels returns or raises, with the filter as written. */
  function KernelsAsWritten(g: Guest): Result<seq<string>>
  {
    match g.grubbyDefault
    case Raise(m) => Fail(GuestFSError(m))
    case Answer(out) => Ok(Order(Strip(out), Candidates(g), IsBackupAsWritten))
  }

  /** What Grub2.list_kernels returns or raises once backups are excluded by suffix. */
  function Kernels(g: Guest): Result<seq<string>>
  {
    match g.grubbyDefault
    case Raise(m) => Fail(GuestFSError(m))
    case Answer(out) => Ok(Order(Strip(out), Candidates(g), IsBackupName))
  }

  lemma OthersStep(candidates: seq<string>, i: nat, default: string)
    requires i < |candidates|
    ensures Others(candidates[..i + 1], default, IsBackupName)
         == Others(candidates[..i], default, IsBackupName)
            + (if Kept(candidates[i], default, IsBackupName) then [candidates[i]] else [])
  {
    var c := candidates[..i + 1];
    assert c[..|c| - 1] == candidates[..i] && c[|c| - 1] == candidates[i];
  }

  /** No path is a backup: what the filter as written amounts to for absolute paths. */
  predicate NoBackup(k: string)
  {
    false
  }

  /** re.match anchors at the start, so the filter as written never removes an absolute path. */
  lemma {:induction false} AsWrittenKeepsAbsolutePaths(candidates: seq<string>, default: string)
    requires forall k :: k in candidates ==> |k| > 0 && k[0] == '/'
    ensures Others(candidates, default, IsBackupAsWritten) == Others(candidates, default, NoBackup)
    decreases |candidates|
  {
    if candidates != [] {
      var init := candidates[..|candidates| - 1];
      assert forall k :: k in init ==> k in candidates;
      AsWrittenKeepsAbsolutePaths(init, default);
      assert candidates[|candidates| - 1] in candidates;
    }
  }

  /**
   * As written, every glob result other than the default is listed as often as
   * the globs return it, backups such as "/vmlinuz-5.1.rpmsave" included.
   */
  lemma KernelsAsWrittenKeepBackups(g: Guest)
    requires g.grubbyDefault.Answer?
    requires forall k :: k in Candidates(g) ==> |k| > 0 && k[0] == '/'
    ensures KernelsAsWritten(g).Ok?
    ensures var d := Strip(g.grubbyDefault.value);
      forall k :: k != d ==> multiset(KernelsAsWritten(g).value[|Lead(d)|..])[k] == multiset(Candidates(g))[k]
  {
    var d := Strip(g.grubbyDefault.value);
    AsWrittenKeepsAbsolutePaths(Candidates(g), d);
    OthersLaws(Candidates(g), d, NoBackup);
  }

  /**
   * With the suffix test, the glob results after the default are exactly those
   * that are neither the default nor a backup, each as often as the globs
   * return it, in glob order.
   */
  lemma KernelsExcludeBackups(g: Guest)
    ensures Kernels(g).Ok? <==> g.grubbyDefault.Answer?
    ensures Kernels(g).Ok? ==>
      var d := Strip(g.grubbyDefault.value);
      var rest := Kernels(g).value[|Lead(d)|..];
      IsSubsequence(rest, Candidates(g))
      && (forall k :: k in rest ==> k != d && !IsBackupName(k))
      && (forall k :: k != d && !IsBackupName(k) ==> multiset(rest)[k] == multiset(Candidates(g))[k])
  {
    if g.grubbyDefault.Answer? {
      OthersLaws(Candidates(g), Strip(g.grubbyDefault.value), IsBackupName);
    }
  }

  /** Both filters give the same list when no glob result ends in a backup suffix. */
  lemma {:induction false} FiltersAgreeWithoutBackups(candidates: seq<string>, default: string)
    requires forall k :: k in candidates ==> !IsBackupName(k)
    ensures Others(candidates, default, IsBackupAsWritten) == Others(candidates, default, IsBackupName)
    decreases |candidates|
  {
    if candidates != [] {
      var init := candidates[..|candidates| - 1];
      var last := candidates[|candidates| - 1];
      assert forall k :: k in init ==> k in candidates;
      FiltersAgreeWithoutBackups(init, default);
      assert last in candidates;
    }
  }

  /** Grub2.list_kernels, shared by both GRUB2 variants. */
  method ScanKernels(g: Guest) returns (r: Result<seq<string>>)
    ensures r == Kernels(g)
  {
    if g.grubbyDefault.Raise? {
      return Fail(GuestFSError(g.grubbyDefault.msg));
    }
    var default := Strip(g.grubbyDefault.value);
    var kernels: seq<string> := [];
    if |default| > 0 {
      kernels := kernels + [default];
    }
    var candidates := Glob(g, "/boot/kernel-*") + Glob(g, "/boot/vmlinuz-*") + Glob(g, "/vmlinuz-*");
    assert candidates == Candidates(g);
    assert candidates[..0] == [];
    var i := 0;
    while i < |candidates|
      invariant 0 <= i <= |candidates|
      invariant kernels == Lead(default) + Others(candidates[..i], default, IsBackupName)
    {
      var kernel := candidates[i];
      OthersStep(candidates, i, default);
      if kernel != default && !IsBackupName(kernel) {
        kernels := kernels + [kernel];
      } else {
        assert kernels + [] == kernels;
      }
      i := i + 1;
    }
    assert candidates[..i] == candidates;
    return Ok(kernels);
  }

  /**
   * The search loop of Grub2EFI.__init__ from a point where `guid` holds the
   * last value read (None: never assigned). A failing GPT lookup leaves `guid`
   * as it was, because `next` on its own line does nothing.
   */
  function EspSearch(g: Guest, devices: seq<string>, guid: Option<string>): (r: Result<Option<string>>)
    requires guid != Some(EspGuid)
    ensures r.Fail? ==> r.err == PythonError(UnboundGuid)
    ensures r.Ok? && r.value.Some? ==>
      (r.value.value in devices && (r.value.value, 1) in g.gptType && g.gptType[(r.value.value, 1)] == EspGuid)
    decreases |devices|
  {
    if devices == [] then Ok(None)
    else
      var d := devices[0];
      var guid' := if (d, 1) in g.gptType then Some(g.gptType[(d, 1)]) else guid;
      if guid'.None? then Fail(PythonError(UnboundGuid))
      else if guid'.value == EspGuid then Ok(Some(d))
      else EspSearch(g, devices[1..], guid')
  }

  /** The EFI disk when the search is run on the intended semantics: a device without GPT is skipped. */
  function FirstEsp(g: Guest, devices: seq<string>): Option<string>
    decreases |devices|
  {
    if devices == [] then None
    else if (devices[0], 1) in g.gptType && g.gptType[(devices[0], 1)] == EspGuid then Some(devices[0])
    else FirstEsp(g, devices[1..])
  }

  /** FirstEsp finds the first device whose partition 1 is an EFI System Partition, if any. */
  lemma {:induction false} FirstEspIsFirst(g: Guest, devices: seq<string>)
    ensures FirstEsp(g, devices).Some? <==>
      exists k :: 0 <= k < |devices| && (devices[k], 1) in g.gptType && g.gptType[(devices[k], 1)] == EspGuid
    ensures FirstEsp(g, devices).Some? ==>
      exists k :: (0 <= k < |devices| && devices[k] == FirstEsp(g, devices).value
                   && (devices[k], 1) in g.gptType && g.gptType[(devices[k], 1)] == EspGuid
                   && forall j :: 0 <= j < k ==> !((devices[j], 1) in g.gptType && g.gptType[(devices[j], 1)] == EspGuid))
    decreases |devices|
  {
    if devices != [] {
      FirstEspIsFirst(g, devices[1..]);
      if FirstEsp(g, devices).Some? && !((devices[0], 1) in g.gptType && g.gptType[(devices[0], 1)] == EspGuid) {
        var k :| 0 <= k < |devices| - 1 && devices[1..][k] == FirstEsp(g, devices).value
          && (devices[1..][k], 1) in g.gptType && g.gptType[(devices[1..][k], 1)] == EspGuid
          && forall j :: 0 <= j < k ==> !((devices[1..][j], 1) in g.gptType && g.gptType[(devices[1..][j], 1)] == EspGuid);
        assert devices[k + 1] == devices[1..][k];
        forall j | 0 <= j < k + 1
          ensures !((devices[j], 1) in g.gptType && g.gptType[(devices[j], 1)] == EspGuid)
        {
          if j > 0 { assert devices[j] == devices[1..][j - 1]; }
        }
      }
      if exists k :: 0 <= k < |devices| && (devices[k], 1) in g.gptType && g.gptType[(devices[k], 1)] == EspGuid {
        var k :| 0 <= k < |devices| && (devices[k], 1) in g.gptType && g.gptType[(devices[k], 1)] == EspGuid;
        if k > 0 { assert devices[1..][k - 1] == devices[k]; }
      }
    }
  }

  /**
   * The search as written agrees with the intended one once `guid` has been
   * assigned a non-ESP value, and whenever the first device has a GPT type.
   */
  lemma {:induction false} EspSearchAgrees(g: Guest, devices: seq<string>, guid: Option<string>)
    requires guid.Some? && guid != Some(EspGuid)
    ensures EspSearch(g, devices, guid) == Ok(FirstEsp(g, devices))
    decreases |devices|
  {
    if devices != [] {
      var d := devices[0];
      var guid' := if (d, 1) in g.gptType then Some(g.gptType[(d, 1)]) else guid;
      if guid'.value != EspGuid {
        EspSearchAgrees(g, devices[1..], guid');
      }
    }
  }

  lemma EspSearchAsWritten(g: Guest)
    ensures g.devices == [] || (g.devices[0], 1) in g.gptType ==>
      EspSearch(g, g.devices, None) == Ok(FirstEsp(g, g.devices))
    ensures g.devices != [] && (g.devices[0], 1) !in g.gptType ==>
      EspSearch(g, g.devices, None) == Fail(PythonError(UnboundGuid))
  {
    if g.devices != [] && (g.devices[0], 1) in g.gptType {
      var t := g.gptType[(g.devices[0], 1)];
      if t != EspGuid {
        EspSearchAgrees(g, g.devices[1..], Some(t));
      }
    }
  }

  /** re.search('/grub\.cfg$', path) for the paths `find` lists: the first configuration. */
  function FirstConfig(paths: seq<string>): (r: Option<string>)
    ensures r.Some? ==> r.value in paths && EndsWith(r.value, CfgSuffix)
    ensures r.None? ==> forall p :: p in paths ==> !EndsWith(p, CfgSuffix)
    decreases |paths|
  {
    if paths == [] then None
    else if EndsWith(paths[0], CfgSuffix) then Some(paths[0])
    else FirstConfig(paths[1..])
  }

  /** FirstConfig answers the first path ending in `/grub.cfg`, and nothing exactly when no path does. */
  lemma {:induction false} FirstConfigIsFirst(paths: seq<string>)
    ensures FirstConfig(paths).None? <==> forall k :: 0 <= k < |paths| ==> !EndsWith(paths[k], CfgSuffix)
    ensures FirstConfig(paths).Some? ==>
      exists k :: 0 <= k < |paths| && paths[k] == FirstConfig(paths).value
                  && forall j :: 0 <= j < k ==> !EndsWith(paths[j], CfgSuffix)
    decreases |paths|
  {
    if paths != [] && !EndsWith(paths[0], CfgSuffix) {
      var rest := paths[1..];
      FirstConfigIsFirst(rest);
      assert forall k :: 1 <= k < |paths| ==> paths[k] == rest[k - 1];
      if FirstConfig(rest).Some? {
        var k :| 0 <= k < |rest| && rest[k] == FirstConfig(rest).value
                 && forall j :: 0 <= j < k ==> !EndsWith(rest[j], CfgSuffix);
        assert paths[k + 1] == FirstConfig(paths).value;
      }
    } else if paths != [] {
      assert paths[0] == FirstConfig(paths).value;
    }
  }

  /**
   * The rest of Grub2EFI.__init__ once the device search has answered: the
   * mount point of partition 1 and the first grub.cfg under it.
   */
  function EfiFrom(g: Guest, search: Result<Option<string>>): (r: Result<(string, string)>)
    ensures search.Fail? ==> r == Fail(search.err)
    ensures search == Ok(None) ==> r == Fail(BootLoaderNotFound)
    ensures search.Ok? && search.value.Some? && search.value.value + "1" !in g.mountpoints ==> r == Fail(BootLoaderNotFound)
    ensures search.Ok? && search.value.Some? && search.value.value + "1" in g.mountpoints
            && g.find(g.mountpoints[search.value.value + "1"]).Raise? ==>
      r == Fail(GuestFSError(g.find(g.mountpoints[search.value.value + "1"]).msg))
    ensures search.Ok? && search.value.Some? && search.value.value + "1" in g.mountpoints
            && g.find(g.mountpoints[search.value.value + "1"]).Answer?
            && (forall p :: p in g.find(g.mountpoints[search.value.value + "1"]).value ==> !EndsWith(p, CfgSuffix)) ==>
      r == Fail(BootLoaderNotFound)
    ensures r.Ok? ==>
      search == Ok(Some(r.value.0)) && r.value.0 + "1" in g.mountpoints
      && g.find(g.mountpoints[r.value.0 + "1"]).Answer?
      && exists p :: p in g.find(g.mountpoints[r.value.0 + "1"]).value && EndsWith(p, CfgSuffix)
                     && r.value.1 == g.mountpoints[r.value.0 + "1"] + p
  {
    match search
    case Fail(e) => Fail(e)
    case Ok(None) => Fail(BootLoaderNotFound)
    case Ok(Some(disk)) =>
      if disk + "1" !in g.mountpoints then Fail(BootLoaderNotFound)
      else
        var mp := g.mountpoints[disk + "1"];
        match g.find(mp)
        case Raise(m) => Fail(GuestFSError(m))
        case Answer(paths) =>
          match FirstConfig(paths)
          case None => Fail(BootLoaderNotFound)
          case Some(p) => Ok((disk, mp + p))
  }

  /** What Grub2EFI.__init__ does as written, `next` doing nothing. */
  function EfiLocateAsWritten(g: Guest): Result<(string, string)>
  {
    EfiFrom(g, EspSearch(g, g.devices, None))
  }

  /** What Grub2EFI.__init__ does when a device without a GPT partition 1 is skipped. */
  function EfiLocate(g: Guest): Result<(string, string)>
  {
    EfiFrom(g, Ok(FirstEsp(g, g.devices)))
  }

  /**
   * EFI recognition: the disk is the first device whose partition 1 has the
   * ESP type, its partition 1 is mounted, and the configuration is the first
   * grub.cfg found under the mount point; a failure is only "not found" or a
   * failing `find`.
   */
  lemma EfiLocateLaws(g: Guest)
    ensures EfiLocate(g).Fail? ==> EfiLocate(g).err == BootLoaderNotFound || EfiLocate(g).err.GuestFSError?
    ensures FirstEsp(g, g.devices).None? ==> EfiLocate(g) == Fail(BootLoaderNotFound)
    // Not found exactly when there is no ESP, it is not mounted, or no grub.cfg lies under its mount point.
    ensures EfiLocate(g) == Fail(BootLoaderNotFound) <==>
      FirstEsp(g, g.devices).None?
      || FirstEsp(g, g.devices).value + "1" !in g.mountpoints
      || (g.find(g.mountpoints[FirstEsp(g, g.devices).value + "1"]).Answer?
          && forall p :: p in g.find(g.mountpoints[FirstEsp(g, g.devices).value + "1"]).value ==> !EndsWith(p, CfgSuffix))
    // A failing `find` on the mount point is passed on.
    ensures EfiLocate(g).Fail? && EfiLocate(g).err.GuestFSError? <==>
      FirstEsp(g, g.devices).Some? && FirstEsp(g, g.devices).value + "1" in g.mountpoints
      && g.find(g.mountpoints[FirstEsp(g, g.devices).value + "1"]).Raise?
    ensures EfiLocate(g).Ok? ==>
      var disk := EfiLocate(g).value.0;
      var mp := g.mountpoints[disk + "1"];
      (exists k :: (0 <= k < |g.devices| && g.devices[k] == disk
                    && (g.devices[k], 1) in g.gptType && g.gptType[(g.devices[k], 1)] == EspGuid
                    && forall j :: 0 <= j < k ==> !((g.devices[j], 1) in g.gptType && g.gptType[(g.devices[j], 1)] == EspGuid)))
      && FirstConfig(g.find(mp).value).Some?
      && EfiLocate(g).value.1 == mp + FirstConfig(g.find(mp).value).value
  {
    FirstEspIsFirst(g, g.devices);
    var disk := FirstEsp(g, g.devices);
    if disk.Some? && disk.value + "1" in g.mountpoints {
      var found := g.find(g.mountpoints[disk.value + "1"]);
      if found.Answer? {
        FirstConfigIsFirst(found.value);
      }
    }
  }

  /**
   * As written, the search agrees with the intended one exactly when no device
   * is tried before `guid` is first assigned; otherwise it raises
   * UnboundLocalError, which aborts the whole detection.
   */
  lemma EfiAsWrittenVersusIntended(g: Guest)
    ensures g.devices == [] || (g.devices[0], 1) in g.gptType ==> EfiLocateAsWritten(g) == EfiLocate(g)
    ensures g.devices != [] && (g.devices[0], 1) !in g.gptType ==>
      EfiLocateAsWritten(g) == Fail(PythonError(UnboundGuid)) && EfiLocateAsWritten(g) != EfiLocate(g)
  {
    EspSearchAsWritten(g);
    EfiLocateLaws(g);
  }

  class Grub2Bios {
    const g: Guest
    const root: string

    constructor (g: Guest, root: string)
      ensures this.g == g && this.root == root
    {
      this.g := g;
      this.root := root;
    }

    /** Grub2BIOS.__init__: recognised exactly when /boot/grub2/grub.cfg exists. */
    static method Recognise(g: Guest, root: string) returns (r: Result<Grub2Bios>)
      ensures r.Ok? <==> BiosConfig in g.existing
      ensures r.Fail? ==> r.err == BootLoaderNotFound
      ensures r.Ok? ==> r.value.g == g && r.value.root == root
    {
      if BiosConfig !in g.existing {
        return Fail(BootLoaderNotFound);
      }
      var b := new Grub2Bios(g, root);
      return Ok(b);
    }

    method ListKernels() returns (r: Result<seq<string>>)
      ensures r == Kernels(g)
    {
      r := ScanKernels(g);
    }
  }

  class Grub2Efi {
    const g: Guest
    const root: string
    const disk: string
    const cfg: string

    constructor (g: Guest, root: string, disk: string, cfg: string)
      ensures this.g == g && this.root == root && this.disk == disk && this.cfg == cfg
    {
      this.g := g;
      this.root := root;
      this.disk := disk;
      this.cfg := cfg;
    }

    /**
     * Grub2EFI.__init__: the device loop, the mount point lookup and the search
     * for grub.cfg, with a device lacking a GPT partition 1 skipped.
     */
    static method Recognise(g: Guest, root: string) returns (r: Result<Grub2Efi>)
      ensures r.Fail? ==> EfiLocate(g) == Fail(r.err)
      ensures r.Ok? ==> EfiLocate(g) == Ok((r.value.disk, r.value.cfg))
      ensures r.Ok? ==> r.value.g == g && r.value.root == root
    {
      var disk: Option<string> := None;
      var i := 0;
      while i < |g.devices|
        invariant 0 <= i <= |g.devices|
        invariant FirstEsp(g, g.devices) == if disk.Some? then disk else FirstEsp(g, g.devices[i..])
      {
        var device := g.devices[i];
        assert g.devices[i..][0] == device && g.devices[i..][1..] == g.devices[i + 1..];
        if (device, 1) !in g.gptType {
          // not EFI when partition 1 is not GPT: go on with the next device
          i := i + 1;
          continue;
        }
        var guid := g.gptType[(device, 1)];
        if guid == EspGuid {
          disk := Some(device);
          break;
        }
        i := i + 1;
      }
      if disk.None? {
        return Fail(BootLoaderNotFound);
      }
      var device := disk.value;
      if device + "1" !in g.mountpoints {
        return Fail(BootLoaderNotFound);
      }
      var mp := g.mountpoints[device + "1"];
      var found := g.find(mp);
      if found.Raise? {
        return Fail(GuestFSError(found.msg));
      }
      var paths := found.value;
      var cfg: Option<string> := None;
      var j := 0;
      while j < |paths|
        invariant 0 <= j <= |paths|
        invariant FirstConfig(paths) == if cfg.Some? then cfg else FirstConfig(paths[j..])
      {
        var path := paths[j];
        assert paths[j..][0] == path && paths[j..][1..] == paths[j + 1..];
        if EndsWith(path, CfgSuffix) {
          cfg := Some(path);
          break;
        }
        j := j + 1;
      }
      if cfg.None? {
        return Fail(BootLoaderNotFound);
      }
      var b := new Grub2Efi(g, root, device, mp + cfg.value);
      return Ok(b);
    }

    method ListKernels() returns (r: Result<seq<string>>)
      ensures r == Kernels(g)
    {
      r := ScanKernels(g);
    }
  }
}
