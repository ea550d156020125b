/**
 * Grub.get_initrd (redhat.py:72-79): the initrd grubby reports for a kernel,
 * read from the `initrd=` line of `grubby --info <kernel>`.
 */
module Grubby {
  import opened Outcomes
  import opened GuestFs
  import opened Text

  const InitrdKey := "initrd="
  const NoInitrd := "grubby didn't return an initrd for kernel "
  /** What Python raises when get_initrd reads the name `h`, which no scope defines. */
  const UndefinedHandle := "NameError: global name 'h' is not defined"

  /** The end of the run of non-whitespace characters of `s` that starts at `i`. */
  function RunEnd(s: string, i: nat): (k: nat)
    requires i <= |s|
    ensures i <= k <= |s|
    ensures forall m :: i <= m < k ==> !IsSpace(s[m])
    ensures k < |s| ==> IsSpace(s[k])
    decreases |s| - i
  {
    if i < |s| && !IsSpace(s[i]) then RunEnd(s, i + 1) else i
  }

  /**
   * re.match('^initrd=(\S+)', line): the longest non-empty run of
   * non-whitespace characters right after a leading `initrd=`.
   */
  function InitrdToken(line: string): (t: Option<string>)
    ensures t.Some? ==>
      InitrdKey + t.value <= line && t.value != [] && NoSpace(t.value)
      && (|line| == |InitrdKey| + |t.value| || IsSpace(line[|InitrdKey| + |t.value|]))
    ensures t.None? <==> !(InitrdKey <= line) || |line| == |InitrdKey| || IsSpace(line[|InitrdKey|])
  {
    if !(InitrdKey <= line) then None
    else
      var k := RunEnd(line, |InitrdKey|);
      if k == |InitrdKey| then None
      else
        var t := line[|InitrdKey|..k];
        assert line[..|InitrdKey| + |t|] == InitrdKey + t;
        Some(t)
  }

  /** A line `initrd=<t>` followed by nothing or by whitespace yields exactly `t`. */
  lemma InitrdTokenOfLine(t: string, rest: string)
    requires t != [] && NoSpace(t)
    requires rest == [] || IsSpace(rest[0])
    ensures InitrdToken(InitrdKey + t + rest) == Some(t)
  {
    var line := InitrdKey + t + rest;
    assert line[..|InitrdKey|] == InitrdKey;
    assert forall m :: |InitrdKey| <= m < |InitrdKey| + |t| ==> line[m] == t[m - |InitrdKey|];
    assert |InitrdKey| + |t| < |line| ==> line[|InitrdKey| + |t|] == rest[0];
    assert RunEnd(line, |InitrdKey|) == |InitrdKey| + |t|;
    assert line[|InitrdKey|..|InitrdKey| + |t|] == t;
  }

  /** The token of the first line of `lines` that carries one. */
  function FirstInitrd(lines: seq<string>): (r: Option<string>)
    ensures r.Some? ==> r.value != [] && NoSpace(r.value)
    decreases |lines|
  {
    if lines == [] then None
    else if InitrdToken(lines[0]).Some? then InitrdToken(lines[0])
    else FirstInitrd(lines[1..])
  }

  /** FirstInitrd answers the token of the first line that has one, and nothing exactly when no line has one. */
  lemma {:induction false} FirstInitrdIsFirst(lines: seq<string>)
    ensures FirstInitrd(lines).Some? ==>
      exists i :: 0 <= i < |lines| && InitrdToken(lines[i]) == FirstInitrd(lines)
                  && forall j :: 0 <= j < i ==> InitrdToken(lines[j]).None?
    ensures FirstInitrd(lines).None? <==> forall i :: 0 <= i < |lines| ==> InitrdToken(lines[i]).None?
    decreases |lines|
  {
    if lines != [] && InitrdToken(lines[0]).None? {
      var rest := lines[1..];
      FirstInitrdIsFirst(rest);
      assert forall i :: 1 <= i < |lines| ==> lines[i] == rest[i - 1];
      if FirstInitrd(rest).Some? {
        var i :| 0 <= i < |rest| && InitrdToken(rest[i]) == FirstInitrd(rest)
                 && forall j :: 0 <= j < i ==> InitrdToken(rest[j]).None?;
        assert InitrdToken(lines[i + 1]) == FirstInitrd(lines);
      }
    }
  }

  /** What get_initrd returns or raises once it reads the grubby output through the object's handle. */
  function Initrd(g: Guest, path: string): (r: Result<string>)
    ensures r.Fail? ==> r.err == ConversionError(NoInitrd + path) || r.err.GuestFSError?
    ensures r.Ok? ==> r.value != [] && NoSpace(r.value)
  {
    match g.grubbyInfo(path)
    case Raise(m) => Fail(GuestFSError(m))
    case Answer(lines) =>
      match FirstInitrd(lines)
      case None => Fail(ConversionError(NoInitrd + path))
      case Some(t) => Ok(t)
  }

  /** get_initrd as written: its first statement reads an undefined global `h`. */
  function InitrdAsWritten(g: Guest, path: string): Result<string>
  {
    Fail(PythonError(UndefinedHandle))
  }

  /**
   * As written, get_initrd never answers and never raises the ConversionError
   * its callers expect, whatever grubby would report.
   */
  lemma InitrdAsWrittenNeverAgrees(g: Guest, path: string)
    ensures InitrdAsWritten(g, path) != Initrd(g, path)
    ensures Initrd(g, path).Ok? ==> InitrdAsWritten(g, path).Fail?
  {
  }

  /** Grub.get_initrd, reading `grubby --info` through the handle the boot-loader object holds. */
  method GetInitrd(g: Guest, path: string) returns (r: Result<string>)
    ensures r == Initrd(g, path)
  {
    var out := g.grubbyInfo(path);
    if out.Raise? {
      return Fail(GuestFSError(out.msg));
    }
    var lines := out.value;
    var i := 0;
    while i < |lines|
      invariant 0 <= i <= |lines|
      invariant FirstInitrd(lines) == FirstInitrd(lines[i..])
    {
      assert lines[i..][0] == lines[i] && lines[i..][1..] == lines[i + 1..];
      var m := InitrdToken(lines[i]);
      if m.Some? {
        return Ok(m.value);
      }
      i := i + 1;
    }
    return Fail(ConversionError(NoInitrd + path));
  }
}
