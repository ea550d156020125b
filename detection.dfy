/**
 * RedHat._inspect_bootloader (redhat.py:262-270): the boot-loader variants are
 * tried in a fixed order and the first one whose constructor does not raise
 * BootLoaderNotFound is the guest's boot loader.
 */
module Detection {
  import opened Outcomes
  import opened GuestFs
  import GrubLegacyProbe
  import Grub2Probe

  datatype Kind = LegacyKind | BiosKind | EfiKind

  /** The order in which the variants are tried. */
  const Variants: seq<Kind> := [LegacyKind, BiosKind, EfiKind]

  const NoBootloader := "Did not detect a bootloader for root "

  /** What a recognised variant discovered about the guest. */
  datatype Signature =
    | LegacySig(conf: string, fs: string)
    | BiosSig
    | EfiSig(disk: string, cfg: string)

  /** The outcome of one variant's constructor. */
  function Probe(k: Kind, g: Guest): Result<Signature>
  {
    match k
    case LegacyKind =>
      (match GrubLegacyProbe.Locate(g)
       case Fail(e) => Fail(e)
       case Ok(p) => Ok(LegacySig(p.0, p.1)))
    case BiosKind =>
      if Grub2Probe.BiosConfig in g.existing then Ok(BiosSig) else Fail(BootLoaderNotFound)
    case EfiKind =>
      (match Grub2Probe.EfiLocate(g)
       case Fail(e) => Fail(e)
       case Ok(p) => Ok(EfiSig(p.0, p.1)))
  }

  /** The for loop over `kinds`: BootLoaderNotFound moves on, anything else ends the loop. */
  function DetectFrom(kinds: seq<Kind>, g: Guest, root: string): (r: Result<Signature>)
    ensures r != Fail(BootLoaderNotFound)
    decreases |kinds|
  {
    if kinds == [] then Fail(ConversionError(NoBootloader + root))
    else
      var r := Probe(kinds[0], g);
      if r == Fail(BootLoaderNotFound) then DetectFrom(kinds[1..], g, root) else r
  }

  /** What _inspect_bootloader returns or raises. */
  function Detect(g: Guest, root: string): Result<Signature>
  {
    DetectFrom(Variants, g, root)
  }

  /** When every variant reports "not found", the result is the ConversionError naming the root. */
  lemma {:induction false} DetectFromExhausted(kinds: seq<Kind>, g: Guest, root: string)
    requires forall i :: 0 <= i < |kinds| ==> Probe(kinds[i], g) == Fail(BootLoaderNotFound)
    ensures DetectFrom(kinds, g, root) == Fail(ConversionError(NoBootloader + root))
    decreases |kinds|
  {
    if kinds != [] {
      assert forall i :: 0 <= i < |kinds| - 1 ==> kinds[1..][i] == kinds[i + 1];
      DetectFromExhausted(kinds[1..], g, root);
    }
  }

  /**
   * First match: the result is the outcome of the first variant that does not
   * report "not found".
   */
  lemma {:induction false} DetectFromFirstMatch(kinds: seq<Kind>, g: Guest, root: string, i: nat)
    requires i < |kinds| && Probe(kinds[i], g) != Fail(BootLoaderNotFound)
    requires forall j :: 0 <= j < i ==> Probe(kinds[j], g) == Fail(BootLoaderNotFound)
    ensures DetectFrom(kinds, g, root) == Probe(kinds[i], g)
    decreases i
  {
    if i > 0 {
      assert forall j :: 0 <= j < i - 1 ==> kinds[1..][j] == kinds[j + 1];
      assert kinds[1..][i - 1] == kinds[i];
      DetectFromFirstMatch(kinds[1..], g, root, i - 1);
    }
  }

  /**
   * The three variants in their order: legacy GRUB wins whenever it has a
   * configuration file, GRUB2 for BIOS exactly when legacy GRUB is absent and
   * /boot/grub2/grub.cfg exists, GRUB2 for EFI only when both are absent; a
   * failure other than "not found" is passed on unchanged, and when no variant
   * is recognised the ConversionError names the root.
   */
  lemma DetectLaws(g: Guest, root: string)
    ensures GrubLegacyProbe.Locate(g).Ok? ==>
      Detect(g, root) == Ok(LegacySig(GrubLegacyProbe.Locate(g).value.0, GrubLegacyProbe.Locate(g).value.1))
    ensures Detect(g, root) == Ok(BiosSig) <==>
      GrubLegacyProbe.Locate(g).Fail? && Grub2Probe.BiosConfig in g.existing
    ensures Detect(g, root).Ok? && Detect(g, root).value.EfiSig? <==>
      GrubLegacyProbe.Locate(g).Fail? && Grub2Probe.BiosConfig !in g.existing && Grub2Probe.EfiLocate(g).Ok?
    ensures Detect(g, root) == Fail(ConversionError(NoBootloader + root)) <==>
      GrubLegacyProbe.Locate(g).Fail? && Grub2Probe.BiosConfig !in g.existing
      && Grub2Probe.EfiLocate(g) == Fail(BootLoaderNotFound)
    ensures GrubLegacyProbe.Locate(g).Fail? && Grub2Probe.BiosConfig !in g.existing
            && Grub2Probe.EfiLocate(g).Fail? && Grub2Probe.EfiLocate(g).err != BootLoaderNotFound
            ==> Detect(g, root) == Fail(Grub2Probe.EfiLocate(g).err)
  {
    Grub2Probe.EfiLocateLaws(g);
    assert Variants[1..] == [BiosKind, EfiKind] && Variants[1..][1..] == [EfiKind] && Variants[1..][1..][1..] == [];
  }

  /** A recognised boot loader: an object of one of the three variants. */
  datatype Bootloader =
    | Legacy(legacy: GrubLegacyProbe.GrubLegacy)
    | Bios(bios: Grub2Probe.Grub2Bios)
    | Efi(efi: Grub2Probe.Grub2Efi)

  /** What the object discovered, as a Signature. */
  function View(b: Bootloader): Signature
  {
    match b
    case Legacy(l) => LegacySig(l.grubConf, l.grubFs)
    case Bios(_) => BiosSig
    case Efi(e) => EfiSig(e.disk, e.cfg)
  }

  /** The guest and root the object was built for. */
  ghost predicate BuiltFor(b: Bootloader, g: Guest, root: string)
  {
    match b
    case Legacy(l) => l.g == g && l.root == root
    case Bios(x) => x.g == g && x.root == root
    case Efi(e) => e.g == g && e.root == root
  }

  /** `bl(self._h, self._root, self._logger)` for one variant. */
  method Construct(k: Kind, g: Guest, root: string) returns (r: Result<Bootloader>)
    ensures r.Fail? ==> Probe(k, g) == Fail(r.err)
    ensures r.Ok? ==> Probe(k, g) == Ok(View(r.value)) && BuiltFor(r.value, g, root)
  {
    match k
    case LegacyKind =>
      var l := GrubLegacyProbe.GrubLegacy.Recognise(g, root);
      if l.Fail? { return Fail(l.err); }
      return Ok(Legacy(l.value));
    case BiosKind =>
      var b := Grub2Probe.Grub2Bios.Recognise(g, root);
      if b.Fail? { return Fail(b.err); }
      return Ok(Bios(b.value));
    case EfiKind =>
      var e := Grub2Probe.Grub2Efi.Recognise(g, root);
      if e.Fail? { return Fail(e.err); }
      return Ok(Efi(e.value));
  }

  /** RedHat._inspect_bootloader. */
  method InspectBootloader(g: Guest, root: string) returns (r: Result<Bootloader>)
    ensures r.Fail? ==> Detect(g, root) == Fail(r.err)
    ensures r.Ok? ==> Detect(g, root) == Ok(View(r.value)) && BuiltFor(r.value, g, root)
  {
    var i := 0;
    while i < |Variants|
      invariant 0 <= i <= |Variants|
      invariant Detect(g, root) == DetectFrom(Variants[i..], g, root)
    {
      assert Variants[i..][0] == Variants[i] && Variants[i..][1..] == Variants[i + 1..];
      var b := Construct(Variants[i], g, root);
      if b != Fail(BootLoaderNotFound) {
        return b;
      }
      i := i + 1;
    }
    return Fail(ConversionError(NoBootloader + root));
  }
}
