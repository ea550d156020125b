/** Concrete guests that show the model's behaviour on small inputs. */
module Scenarios {
  import opened Outcomes
  import opened GuestFs
  import opened Text
  import AugeasErrors
  import GrubLegacyProbe
  import Grub2Probe
  import Detection

  /** A guest with nothing on it: every query answers empty. */
  function Bare(): Guest
  {
    Guest({}, map[], map[], _ => Answer([]), _ => Raise("no such node"), map[], Answer(""),
          _ => Answer([]), [], map[], _ => Answer([]))
  }

  const FstabError := "/augeas/files/etc/fstab/error"

  function FstabDetail(k: string): string { FstabError + "/" + k }

  function FstabNode(p: string): Reply<string>
  {
    if p == FstabDetail("message") then Answer("Syntax error")
    else if p == FstabDetail("line") then Answer("3")
    else if p == FstabDetail("char") then Answer("0")
    else if p == FstabDetail("pos") then Answer("42")
    else Raise("no such node")
  }

  function FstabTree(p: string): Reply<seq<string>>
  {
    if p == AugeasErrors.ErrorPattern then Answer([FstabError])
    else if p == FstabError + "//*" then
      Answer([FstabDetail("message"), FstabDetail("line"), FstabDetail("char"), FstabDetail("pos")])
    else Answer([])
  }

  function FstabGuest(): Guest
  {
    Bare().(augMatch := FstabTree, augGet := FstabNode)
  }

  function FstabDetails(): map<string, string>
  {
    map["message" := "Syntax error", "line" := "3", "char" := "0", "pos" := "42"]
  }

  /** The two lines the fstab error node contributes, the second without its newline. */
  const FstabHeaderLine := AugeasErrors.Header + "/etc/fstab" + ": " + "Syntax error" + "\n"
  const FstabPosition := "error at line " + "3" + ", char " + "0" + ", file position " + "42"

  lemma FstabDetailsRead()
    ensures AugeasErrors.CollectDetail(FstabGuest(), FstabError, FstabTree(FstabError + "//*").value, map[])
         == Ok(FstabDetails())
  {
    var g := FstabGuest();
    var paths := [FstabDetail("message"), FstabDetail("line"), FstabDetail("char"), FstabDetail("pos")];
    assert FstabTree(FstabError + "//*").value == paths;
    AugeasErrors.DetailKeyRoundTrip(FstabError, "message");
    AugeasErrors.DetailKeyRoundTrip(FstabError, "line");
    AugeasErrors.DetailKeyRoundTrip(FstabError, "char");
    AugeasErrors.DetailKeyRoundTrip(FstabError, "pos");
    assert AugeasErrors.CollectDetail(g, FstabError, paths[3..], map["message" := "Syntax error", "line" := "3", "char" := "0"])
        == Ok(FstabDetails());
    assert AugeasErrors.CollectDetail(g, FstabError, paths[2..], map["message" := "Syntax error", "line" := "3"])
        == Ok(FstabDetails());
    assert AugeasErrors.CollectDetail(g, FstabError, paths[1..], map["message" := "Syntax error"]) == Ok(FstabDetails());
  }

  lemma FstabBlockText()
    ensures AugeasErrors.Block("/etc/fstab", FstabDetails()) == FstabHeaderLine + FstabPosition + "\n"
  {
    var detail := FstabDetails();
    assert "lens" !in detail;
    assert AugeasErrors.FileLine("/etc/fstab", detail) == FstabHeaderLine;
    assert AugeasErrors.PositionLine(detail) == FstabPosition + "\n";
  }

  lemma FstabComposed(msg: string)
    ensures AugeasErrors.Compose(FstabGuest(), [FstabError], msg) == Ok(msg + (FstabHeaderLine + FstabPosition + "\n"))
  {
    AugeasErrors.ErrorFileRoundTrip("/etc/fstab");
    assert AugeasErrors.FilesRoot + "/etc/fstab" + AugeasErrors.ErrorLeaf == FstabError;
    FstabDetailsRead();
    FstabBlockText();
  }

  /**
   * One error node with message, line, char and pos details: the diagnostic is
   * the original error, the header with the message, and the position line,
   * with the final newline stripped.
   */
  lemma AugeasSingleErrorNode(ex: string)
    requires ex != [] && !IsSpace(ex[0])
    ensures AugeasErrors.Diagnose(FstabGuest(), ex)
         == ConversionError(ex + "\n" + FstabHeaderLine + FstabPosition)
  {
    var body := ex + "\n" + FstabHeaderLine + FstabPosition;
    FstabComposed(ex + "\n");
    Regroup(ex + "\n", FstabHeaderLine, FstabPosition);
    assert body[|body| - 1] == FstabPosition[|FstabPosition| - 1];
    StripPadded("", body, "\n");
  }

  lemma Regroup(a: string, b: string, c: string)
    ensures a + (b + c + "\n") == "" + (a + b + c) + "\n"
  {
  }

  // Legacy GRUB: grub.conf with default=0 and two titles, /boot mounted separately.

  const Title1 := "/files/boot/grub/grub.conf/title[1]/kernel"
  const Title2 := "/files/boot/grub/grub.conf/title[2]/kernel"

  /** The tree paths the legacy guest answers are pairwise different. */
  lemma LegacyPathsDiffer()
    ensures Title1 != Title2
    ensures GrubLegacyProbe.DefaultPath(GrubLegacyProbe.GrubConf) != Title1
    ensures GrubLegacyProbe.DefaultPath(GrubLegacyProbe.GrubConf) != Title2
    ensures GrubLegacyProbe.KernelPattern(GrubLegacyProbe.GrubConf)
         != GrubLegacyProbe.DefaultKernelPattern(GrubLegacyProbe.GrubConf, "0")
  {
    assert Title1[33] != Title2[33];
    assert |GrubLegacyProbe.DefaultPath(GrubLegacyProbe.GrubConf)| != |Title1|;
    assert |GrubLegacyProbe.KernelPattern(GrubLegacyProbe.GrubConf)|
        != |GrubLegacyProbe.DefaultKernelPattern(GrubLegacyProbe.GrubConf, "0")|;
  }

  /**
   * The legacy guest; `defaultNodes` is what the tree answers for the default
   * entry, and `second` is the kernel path written in the second title.
   */
  function LegacyGuest(defaultNodes: seq<string>, second: string): Guest
  {
    Bare().(
      existing := {GrubLegacyProbe.GrubConf, "/boot" + "/vmlinuz-a", "/boot" + "/vmlinuz-b"},
      inspectMounts := map["/" := "/dev/sda2", "/boot" := "/dev/sda1"],
      augGet := p => if p == GrubLegacyProbe.DefaultPath(GrubLegacyProbe.GrubConf) then Answer("0")
                     else if p == Title1 then Answer("/vmlinuz-a")
                     else if p == Title2 then Answer(second)
                     else Raise("no such node"),
      augMatch := p => if p == GrubLegacyProbe.KernelPattern(GrubLegacyProbe.GrubConf) then Answer([Title1, Title2])
                       else if p == GrubLegacyProbe.DefaultKernelPattern(GrubLegacyProbe.GrubConf, "0") then Answer(defaultNodes)
                       else Answer([]))
  }

  /** What the legacy scenarios need a guest to answer. */
  ghost predicate LegacyAnswers(g: Guest, defaultNodes: seq<string>, second: string)
  {
    GrubLegacyProbe.GrubConf in g.existing && "/boot" + "/vmlinuz-a" in g.existing && "/boot" + "/vmlinuz-b" in g.existing
    && "/boot" in g.inspectMounts && "/boot/grub" !in g.inspectMounts
    && g.augGet(GrubLegacyProbe.DefaultPath(GrubLegacyProbe.GrubConf)) == Answer("0")
    && g.augMatch(GrubLegacyProbe.DefaultKernelPattern(GrubLegacyProbe.GrubConf, "0")) == Answer(defaultNodes)
    && g.augMatch(GrubLegacyProbe.KernelPattern(GrubLegacyProbe.GrubConf)) == Answer([Title1, Title2])
    && g.augGet(Title1) == Answer("/vmlinuz-a") && g.augGet(Title2) == Answer(second)
  }

  /** The concrete legacy guest gives those answers. */
  lemma LegacyGuestAnswers(defaultNodes: seq<string>, second: string)
    ensures LegacyAnswers(LegacyGuest(defaultNodes, second), defaultNodes, second)
  {
    var g := LegacyGuest(defaultNodes, second);
    LegacyPathsDiffer();
    assert "/boot/grub" !in g.inspectMounts by {
      assert |"/boot/grub"| != |"/"| && |"/boot/grub"| != |"/boot"|;
    }
  }

  /** With grub.conf present and /boot mounted, the probe picks grub.conf and the prefix /boot. */
  lemma LegacyLocate(g: Guest, defaultNodes: seq<string>, second: string)
    requires LegacyAnswers(g, defaultNodes, second)
    ensures GrubLegacyProbe.Locate(g) == Ok((GrubLegacyProbe.GrubConf, "/boot"))
  {
  }

  /** Resolving the two titles in file order, the second one naming `second`. */
  lemma LegacyFileOrder(g: Guest, defaultNodes: seq<string>, second: string)
    requires second == "/vmlinuz-a" || second == "/vmlinuz-b"
    requires LegacyAnswers(g, defaultNodes, second)
    ensures GrubLegacyProbe.Resolve(g, "/boot", [Title1, Title2], {Title1}) == Ok(["/boot" + second])
    ensures GrubLegacyProbe.Resolve(g, "/boot", [Title1, Title2], {}) == Ok(["/boot" + "/vmlinuz-a", "/boot" + second])
  {
    LegacyPathsDiffer();
    var none: set<string> := {};
    var k2 := "/boot" + second;
    assert k2 in g.existing;
    assert GrubLegacyProbe.Resolve(g, "/boot", [], {Title1} + {Title2}) == Ok([]);
    assert [k2] + [] == [k2];
    assert [Title2][1..] == [] && [Title1, Title2][1..] == [Title2];
    assert GrubLegacyProbe.Resolve(g, "/boot", [Title2], {Title1}) == Ok([k2]);
    assert none + {Title1} == {Title1};
    assert ["/boot" + "/vmlinuz-a"] + [k2] == ["/boot" + "/vmlinuz-a", k2];
  }

  /** The node list: the default entry's nodes, then both titles. */
  lemma LegacyNodes(g: Guest, defaultNodes: seq<string>, second: string)
    requires LegacyAnswers(g, defaultNodes, second)
    ensures GrubLegacyProbe.KernelNodes(g, GrubLegacyProbe.GrubConf) == Ok(defaultNodes + [Title1, Title2])
  {
    assert GrubLegacyProbe.DefaultEntryNodes(g, GrubLegacyProbe.GrubConf) == defaultNodes;
  }

  /**
   * The default entry's query finding nothing (augeas counts titles from 1,
   * and the default index 0 is used verbatim): the configuration is grub.conf,
   * the prefix /boot, and the list is file order under that prefix.
   */
  lemma LegacyDefaultMatchesNothing(g: Guest)
    requires LegacyAnswers(g, [], "/vmlinuz-b")
    ensures GrubLegacyProbe.Kernels(g, GrubLegacyProbe.GrubConf, "/boot") == Ok(["/boot" + "/vmlinuz-a", "/boot" + "/vmlinuz-b"])
  {
    LegacyNodes(g, [], "/vmlinuz-b");
    LegacyFileOrder(g, [], "/vmlinuz-b");
    assert [] + [Title1, Title2] == [Title1, Title2];
  }

  /**
   * The default entry's query finding the first title: that node comes first
   * and is resolved once, so the list is the same two kernels.
   */
  lemma LegacyDefaultMatchesFirstTitle(g: Guest)
    requires LegacyAnswers(g, [Title1], "/vmlinuz-b")
    ensures GrubLegacyProbe.Kernels(g, GrubLegacyProbe.GrubConf, "/boot") == Ok(["/boot" + "/vmlinuz-a", "/boot" + "/vmlinuz-b"])
  {
    LegacyNodes(g, [Title1], "/vmlinuz-b");
    LegacyFileOrder(g, [Title1], "/vmlinuz-b");
    var nodes := [Title1] + [Title1, Title2];
    var none: set<string> := {};
    assert nodes[0] == Title1 && nodes[1..] == [Title1, Title2];
    assert none + {Title1} == {Title1};
  }

  /**
   * De-duplication is by node, not by kernel: two titles naming the same
   * kernel both contribute it.
   */
  lemma LegacySameKernelTwice(g: Guest)
    requires LegacyAnswers(g, [], "/vmlinuz-a")
    ensures GrubLegacyProbe.Kernels(g, GrubLegacyProbe.GrubConf, "/boot") == Ok(["/boot" + "/vmlinuz-a", "/boot" + "/vmlinuz-a"])
  {
    LegacyNodes(g, [], "/vmlinuz-a");
    LegacyFileOrder(g, [], "/vmlinuz-a");
    assert [] + [Title1, Title2] == [Title1, Title2];
  }

  // GRUB2: grubby names no default; the globs find a kernel and an rpm backup.

  const Kernel51 := "/boot/vmlinuz-5.1"
  const Rpmsave := "/vmlinuz-5.1" + "." + "rpmsave"

  function Grub2Guest(): Guest
  {
    Bare().(
      existing := {Grub2Probe.BiosConfig},
      globs := map["/boot/vmlinuz-*" := [Kernel51], "/vmlinuz-*" := [Rpmsave]])
  }

  lemma Grub2Candidates()
    ensures Grub2Probe.Candidates(Grub2Guest()) == [Kernel51, Rpmsave]
    ensures Strip(Grub2Guest().grubbyDefault.value) == []
  {
    var g := Grub2Guest();
    assert "/boot/kernel-*" !in g.globs by {
      assert "/boot/kernel-*"[6] != "/boot/vmlinuz-*"[6];
      assert |"/boot/kernel-*"| != |"/vmlinuz-*"|;
    }
    assert Grub2Probe.KernelGlobs[1] in g.globs && Grub2Probe.KernelGlobs[2] in g.globs;
    assert [] + [Kernel51] + [Rpmsave] == [Kernel51, Rpmsave];
  }

  /** A backup suffix needs at least five characters after its dot. */
  lemma ShortTailNotBackup(k: string, i: nat)
    requires |k| < i + 6
    ensures !Grub2Probe.BackupSuffixAt(k, i)
  {
    if i < |k| {
      var tail := k[i + 1..];
      assert |tail| < 5;
      assert tail != "rpmsave" && tail != "rpmnew" && !("dpkg-" <= tail);
    }
  }

  /** The kernel's only dot is in its last five characters. */
  lemma Kernel51Head(i: nat)
    requires i + 6 <= |Kernel51|
    ensures Kernel51[i] != '.'
  {
  }

  lemma Kernel51NotBackup()
    ensures !Grub2Probe.IsBackupName(Kernel51)
  {
    forall i | 0 <= i < |Kernel51|
      ensures !Grub2Probe.BackupSuffixAt(Kernel51, i)
    {
      if i + 6 <= |Kernel51| {
        Kernel51Head(i);
      } else {
        ShortTailNotBackup(Kernel51, i);
      }
    }
  }

  /**
   * "/vmlinuz-5.1.rpmsave" is an rpm backup, yet the filter as written lists
   * it; with the suffix test the result is only the real kernel.
   */
  lemma Grub2RpmsaveListed()
    ensures Grub2Probe.KernelsAsWritten(Grub2Guest()) == Ok([Kernel51, Rpmsave])
    ensures Grub2Probe.Kernels(Grub2Guest()) == Ok([Kernel51])
    ensures Grub2Probe.IsBackupName(Rpmsave)
  {
    var c := [Kernel51, Rpmsave];
    Grub2Candidates();
    assert Grub2Probe.BackupSuffixAt(Rpmsave, 12) by {
      assert Rpmsave[12] == '.' && Rpmsave[13..] == "rpmsave";
    }
    Kernel51NotBackup();
    assert !Grub2Probe.IsBackupAsWritten(Kernel51) && !Grub2Probe.IsBackupAsWritten(Rpmsave);
    assert c[..1] == [Kernel51] && [Kernel51][..0] == [];
    assert Grub2Probe.Others([Kernel51], [], Grub2Probe.IsBackupName) == [Kernel51];
    assert Grub2Probe.Others([Kernel51], [], Grub2Probe.IsBackupAsWritten) == [Kernel51];
  }

  // EFI: the first device is not GPT partitioned, the second holds the ESP.

  const Sda := "/dev/sd" + "a"
  const Sdb := "/dev/sd" + "b"
  const FedoraDir := "/EFI" + "/fedora"

  function EfiGuest(): Guest
  {
    Bare().(
      devices := [Sda, Sdb],
      gptType := map[(Sdb, 1) := Grub2Probe.EspGuid],
      mountpoints := map[Sdb + "1" := "/boot/efi"],
      find := d => if d == "/boot/efi" then Answer(["/EFI", FedoraDir, FedoraDir + Grub2Probe.CfgSuffix]) else Answer([]))
  }

  /**
   * As written, the failed GPT lookup on /dev/sda leaves `guid` unassigned and
   * the comparison raises UnboundLocalError, where the intended search goes on.
   */
  lemma EfiUnassignedGuid()
    ensures Grub2Probe.EfiLocateAsWritten(EfiGuest()) == Fail(PythonError(Grub2Probe.UnboundGuid))
    ensures Grub2Probe.EfiLocateAsWritten(EfiGuest()) != Grub2Probe.EfiLocate(EfiGuest())
  {
    var g := EfiGuest();
    assert (Sda, 1) !in g.gptType by {
      assert Sda[7] != Sdb[7];
    }
    Grub2Probe.EfiAsWrittenVersusIntended(g);
  }

  /** Skipping /dev/sda, the search finds the ESP on /dev/sdb and its grub.cfg. */
  lemma EfiSkipsUnpartitioned()
    ensures Grub2Probe.EfiLocate(EfiGuest()) == Ok((Sdb, "/boot/efi" + FedoraDir + Grub2Probe.CfgSuffix))
  {
    var g := EfiGuest();
    assert (Sda, 1) !in g.gptType by {
      assert Sda[7] != Sdb[7];
    }
    assert g.devices[1..] == [Sdb];
    assert Grub2Probe.FirstEsp(g, g.devices) == Some(Sdb);
    var cfg := FedoraDir + Grub2Probe.CfgSuffix;
    var paths := ["/EFI", FedoraDir, cfg];
    assert !EndsWith("/EFI", Grub2Probe.CfgSuffix);
    assert !EndsWith(FedoraDir, Grub2Probe.CfgSuffix) by {
      assert FedoraDir[2] != Grub2Probe.CfgSuffix[0];
    }
    assert EndsWith(cfg, Grub2Probe.CfgSuffix) by {
      assert cfg[|FedoraDir|..] == Grub2Probe.CfgSuffix;
    }
    assert paths[1..][1..] == [cfg];
    assert Grub2Probe.FirstConfig(paths) == Some(cfg);
    assert "/boot/efi" + cfg == "/boot/efi" + FedoraDir + Grub2Probe.CfgSuffix;
  }

  /** Legacy GRUB is preferred even on a guest that also has /boot/grub2/grub.cfg. */
  lemma LegacyBeforeGrub2(g: Guest, root: string)
    requires GrubLegacyProbe.GrubConf in g.existing && Grub2Probe.BiosConfig in g.existing
    ensures Detection.Detect(g, root).Ok? && Detection.Detect(g, root).value.LegacySig?
    ensures Detection.Detect(g, root).value.conf == GrubLegacyProbe.GrubConf
  {
    Detection.DetectLaws(g, root);
  }

  /** A guest with no boot loader at all: the ConversionError names the root. */
  lemma NothingDetected(root: string)
    ensures Detection.Detect(Bare(), root) == Fail(ConversionError(Detection.NoBootloader + root))
  {
    Detection.DetectLaws(Bare(), root);
    Grub2Probe.EfiLocateLaws(Bare());
  }
}
