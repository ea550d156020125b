/**
 * augeas_error (redhat.py:33-66): turns a failed config-tree query into a
 * diagnostic built from the error nodes augeas keeps under /augeas/files.
 */
module AugeasErrors {
  import opened Outcomes
  import opened GuestFs
  import opened Text

  const ErrorPattern := "/augeas/files//error"
  const FilesRoot := "/augeas/files"
  const ErrorLeaf := "/error"
  const Header := "augeas error for "
  /** What Python raises when `m.group(1)` is called on a failed re.match. */
  const NoGroup := "AttributeError: 'NoneType' object has no attribute 'group'"

  /**
   * re.match('^/augeas/files(/.*)/error$', error).group(1): the file an error
   * node describes, or None when the path does not have that shape.
   */
  function ErrorFile(error: string): (f: Option<string>)
    ensures f.Some? ==> |f.value| > 0 && f.value[0] == '/' && FilesRoot + f.value + ErrorLeaf == error
  {
    if |error| >= |FilesRoot| + 1 + |ErrorLeaf| && error[..|FilesRoot|] == FilesRoot
       && error[|FilesRoot|] == '/' && error[|error| - |ErrorLeaf|..] == ErrorLeaf
    then
      var f := error[|FilesRoot|..|error| - |ErrorLeaf|];
      assert error == error[..|FilesRoot|] + f + error[|error| - |ErrorLeaf|..];
      Some(f)
    else None
  }

  lemma ErrorFileRoundTrip(f: string)
    requires |f| > 0 && f[0] == '/'
    ensures ErrorFile(FilesRoot + f + ErrorLeaf) == Some(f)
  {
    var e := FilesRoot + f + ErrorLeaf;
    assert e[..|FilesRoot|] == FilesRoot;
    assert e[|FilesRoot|] == f[0];
    assert e[|e| - |ErrorLeaf|..] == ErrorLeaf;
    assert e[|FilesRoot|..|e| - |ErrorLeaf|] == f;
  }

  /** re.match('^%s/(.*)$' % error, path).group(1): the detail name below an error node. */
  function DetailKey(error: string, path: string): (k: Option<string>)
    ensures k.Some? ==> error + "/" + k.value == path
    ensures k.None? ==> !(error + "/" <= path)
  {
    if error + "/" <= path then
      assert path == (error + "/") + path[|error| + 1..];
      Some(path[|error| + 1..])
    else None
  }

  lemma DetailKeyRoundTrip(error: string, k: string)
    ensures DetailKey(error, error + "/" + k) == Some(k)
  {
    var path := error + "/" + k;
    assert path[..|error| + 1] == error + "/";
    assert path[|error| + 1..] == k;
  }

  /** The `detail` dict: later detail paths with the same name overwrite earlier ones. */
  function CollectDetail(g: Guest, error: string, paths: seq<string>, detail: map<string, string>)
    : (r: Result<map<string, string>>)
    ensures r.Fail? ==> r.err.GuestFSError? || r.err == PythonError(NoGroup)
    decreases |paths|
  {
    if paths == [] then Ok(detail)
    else
      // Python evaluates `h.aug_get(detail_path)` before the subscript `m.group(1)`.
      match g.augGet(paths[0])
      case Raise(m) => Fail(GuestFSError(m))
      case Answer(v) =>
        match DetailKey(error, paths[0])
        case None => Fail(PythonError(NoGroup))
        case Some(k) => CollectDetail(g, error, paths[1..], detail[k := v])
  }

  /**
   * Reading the details succeeds exactly when every detail path can be read
   * and lies below the error node; the dict then keeps what it had, gains
   * every detail name, and holds for the last path the value read there.
   */
  lemma {:induction false} CollectDetailLaws(g: Guest, error: string, paths: seq<string>, detail: map<string, string>)
    ensures CollectDetail(g, error, paths, detail).Ok? <==>
      forall i :: 0 <= i < |paths| ==> g.augGet(paths[i]).Answer? && DetailKey(error, paths[i]).Some?
    ensures CollectDetail(g, error, paths, detail).Ok? ==>
      var d := CollectDetail(g, error, paths, detail).value;
      detail.Keys <= d.Keys
      && (forall i :: 0 <= i < |paths| ==> DetailKey(error, paths[i]).value in d)
      && (paths != [] ==> d[DetailKey(error, paths[|paths| - 1]).value] == g.augGet(paths[|paths| - 1]).value)
    decreases |paths|
  {
    if paths != [] {
      var rest := paths[1..];
      assert forall i :: 1 <= i < |paths| ==> paths[i] == rest[i - 1];
      if g.augGet(paths[0]).Answer? && DetailKey(error, paths[0]).Some? {
        var k := DetailKey(error, paths[0]).value;
        var v := g.augGet(paths[0]).value;
        CollectDetailLaws(g, error, rest, detail[k := v]);
        if rest != [] {
          assert paths[|paths| - 1] == rest[|rest| - 1];
        }
      }
    }
  }

  /** Some detail path in `paths` names the detail `k`. */
  predicate ReadsName(error: string, paths: seq<string>, k: string)
  {
    exists i :: 0 <= i < |paths| && DetailKey(error, paths[i]) == Some(k)
  }

  /** No detail path after `paths[i]` names the same detail. */
  predicate ReadLast(error: string, paths: seq<string>, i: nat)
    requires i < |paths|
  {
    forall j :: i < j < |paths| ==> DetailKey(error, paths[j]) != DetailKey(error, paths[i])
  }

  /**
   * The dict once the details are read: the names it had plus the names read,
   * untouched names keep their values, and a name read more than once holds
   * the value read last.
   */
  lemma {:induction false} CollectDetailValues(g: Guest, error: string, paths: seq<string>, detail: map<string, string>)
    requires CollectDetail(g, error, paths, detail).Ok?
    ensures var d := CollectDetail(g, error, paths, detail).value;
      (forall k :: k in d <==> k in detail || ReadsName(error, paths, k))
      && (forall k :: k in detail && !ReadsName(error, paths, k) ==> d[k] == detail[k])
      && (forall i :: 0 <= i < |paths| && DetailKey(error, paths[i]).Some? && g.augGet(paths[i]).Answer?
                      && ReadLast(error, paths, i) ==>
            d[DetailKey(error, paths[i]).value] == g.augGet(paths[i]).value)
    decreases |paths|
  {
    var d := CollectDetail(g, error, paths, detail).value;
    if paths != [] {
      var k0 := DetailKey(error, paths[0]).value;
      var v0 := g.augGet(paths[0]).value;
      var rest := paths[1..];
      var next := detail[k0 := v0];
      assert CollectDetail(g, error, rest, next) == CollectDetail(g, error, paths, detail);
      CollectDetailValues(g, error, rest, next);
      forall k
        ensures ReadsName(error, paths, k) <==> k == k0 || ReadsName(error, rest, k)
      {
        if ReadsName(error, rest, k) {
          var i :| 0 <= i < |rest| && DetailKey(error, rest[i]) == Some(k);
          assert paths[i + 1] == rest[i];
        }
        if ReadsName(error, paths, k) && k != k0 {
          var i :| 0 <= i < |paths| && DetailKey(error, paths[i]) == Some(k);
          assert i != 0;
          assert rest[i - 1] == paths[i];
        }
        if k == k0 {
          assert DetailKey(error, paths[0]) == Some(k);
        }
      }
      forall i | 0 <= i < |paths| && DetailKey(error, paths[i]).Some? && g.augGet(paths[i]).Answer?
                 && ReadLast(error, paths, i)
        ensures d[DetailKey(error, paths[i]).value] == g.augGet(paths[i]).value
      {
        if i != 0 {
          assert rest[i - 1] == paths[i];
          assert ReadLast(error, rest, i - 1) by {
            forall j | i - 1 < j < |rest| ensures DetailKey(error, rest[j]) != DetailKey(error, rest[i - 1]) {
              assert rest[j] == paths[j + 1];
            }
          }
        }
      }
    }
  }

  /** The lines one error node adds to the message. */
  function Block(file: string, detail: map<string, string>): (b: string)
    ensures Header + file <= b && |b| > |Header + file|
    ensures b[|b| - 1] == '\n'
  {
    var line := FileLine(file, detail);
    var b := line + PositionLine(detail) + LensLine(detail);
    assert b[..|line|] == line;
    assert line[..|Header + file|] == Header + file;
    assert line[|line| - 1] == '\n';
    b
  }

  /** A block carries `: <message>` after the header exactly when a message detail exists. */
  lemma BlockShowsMessage(file: string, detail: map<string, string>)
    ensures "message" in detail <==> Header + file + ": " <= Block(file, detail)
  {
    var b := Block(file, detail);
    var head := Header + file;
    var line := FileLine(file, detail);
    assert b[..|line|] == line;
    if "message" in detail {
      var tail := ": " + detail["message"] + "\n";
      assert line == head + tail;
      assert line[..|head| + 2] == head + tail[..2];
    } else {
      assert line == head + "\n";
      assert b[|head|] == line[|head|];
    }
  }

  /** Without message, position or lens details a block is the bare header line. */
  lemma BlockBare(file: string, detail: map<string, string>)
    requires "message" !in detail && "lens" !in detail
    requires !("pos" in detail && "line" in detail && "char" in detail)
    ensures Block(file, detail) == Header + file + "\n"
  {
  }

  /** The details a block reports on. */
  const Reported: seq<string> := ["message", "pos", "line", "char", "lens"]

  /** Details other than message, pos, line, char and lens leave the block unchanged. */
  lemma BlockReadsOnlyReported(file: string, d1: map<string, string>, d2: map<string, string>)
    requires forall i :: 0 <= i < |Reported| ==>
      (Reported[i] in d1 <==> Reported[i] in d2) && (Reported[i] in d1 ==> d1[Reported[i]] == d2[Reported[i]])
    ensures Block(file, d1) == Block(file, d2)
  {
    assert Reported[0] == "message" && Reported[1] == "pos" && Reported[2] == "line";
    assert Reported[3] == "char" && Reported[4] == "lens";
  }

  /** `augeas error for <file>`, then `: <message>` when a message detail exists. */
  function FileLine(file: string, detail: map<string, string>): string
  {
    Header + file + (if "message" in detail then ": " + detail["message"] else "") + "\n"
  }

  /** Present only when the pos, line and char details all exist. */
  function PositionLine(detail: map<string, string>): string
  {
    if "pos" in detail && "line" in detail && "char" in detail
    then "error at line " + detail["line"] + ", char " + detail["char"]
         + ", file position " + detail["pos"] + "\n"
    else ""
  }

  /** Present only when a lens detail exists. */
  function LensLine(detail: map<string, string>): string
  {
    if "lens" in detail then "augeas lens: " + detail["lens"] + "\n" else ""
  }

  /** The message after the error nodes `errors` have been appended to `msg`. */
  function Compose(g: Guest, errors: seq<string>, msg: string): (r: Result<string>)
    ensures r.Fail? ==> r.err.GuestFSError? || r.err == PythonError(NoGroup)
    decreases |errors|
  {
    if errors == [] then Ok(msg)
    else
      match ErrorFile(errors[0])
      case None => Fail(PythonError(NoGroup))
      case Some(file) =>
        match g.augMatch(errors[0] + "//*")
        case Raise(m) => Fail(GuestFSError(m))
        case Answer(paths) =>
          match CollectDetail(g, errors[0], paths, map[])
          case Fail(e) => Fail(e)
          case Ok(detail) => Compose(g, errors[1..], msg + Block(file, detail))
  }

  /** The ConversionError raised when the tree cannot be queried while building the diagnostic. */
  function Combined(failure: string, ex: string): string
  {
    "error generating augeas error: " + failure + "\n" + "original error: " + ex
  }

  /**
   * The exception augeas_error(h, ex) raises, where `ex` is the text of the
   * original GuestFS error: a ConversionError with the stripped diagnostic, or
   * `ex` itself when there is nothing to say.
   */
  function Diagnose(g: Guest, ex: string): (e: Error)
    ensures e != BootLoaderNotFound && (e.PythonError? ==> e.msg == NoGroup)
    ensures e.GuestFSError? ==> e.msg == ex
    ensures e == GuestFSError(ex) <==> AllSpace(ex) && g.augMatch(ErrorPattern) == Answer([])
    ensures e.ConversionError? ==> e.msg != []
    // A GuestFS failure while building the diagnostic names both errors.
    ensures g.augMatch(ErrorPattern).Raise? ==> e == ConversionError(Combined(g.augMatch(ErrorPattern).msg, ex))
    ensures g.augMatch(ErrorPattern).Answer? && Compose(g, g.augMatch(ErrorPattern).value, ex + "\n").Fail?
            && Compose(g, g.augMatch(ErrorPattern).value, ex + "\n").err.GuestFSError? ==>
      e == ConversionError(Combined(Compose(g, g.augMatch(ErrorPattern).value, ex + "\n").err.msg, ex))
    // Otherwise the ConversionError carries the stripped diagnostic.
    ensures g.augMatch(ErrorPattern).Answer? && Compose(g, g.augMatch(ErrorPattern).value, ex + "\n").Ok? ==>
      e.ConversionError? || e == GuestFSError(ex)
    ensures g.augMatch(ErrorPattern).Answer? && Compose(g, g.augMatch(ErrorPattern).value, ex + "\n").Ok?
            && e.ConversionError? ==>
      e.msg == Strip(Compose(g, g.augMatch(ErrorPattern).value, ex + "\n").value)
  {
    match g.augMatch(ErrorPattern)
    case Raise(m) => ConversionError(Combined(m, ex))
    case Answer(errors) =>
      ComposeExtends(g, errors, ex + "\n");
      match Compose(g, errors, ex + "\n")
      case Fail(GuestFSError(m)) => ConversionError(Combined(m, ex))
      case Fail(e) => e
      case Ok(msg) =>
        BlankMessage(ex, errors, msg);
        var s := Strip(msg);
        if |s| > 0 then ConversionError(s) else GuestFSError(ex)
  }

  /** A composed message keeps its start and continues with a header line when there is an error node. */
  lemma {:induction false} ComposeExtends(g: Guest, errors: seq<string>, msg: string)
    ensures Compose(g, errors, msg).Ok? ==>
      msg <= Compose(g, errors, msg).value
      && (errors != [] ==> msg + Header <= Compose(g, errors, msg).value
                           && !IsSpace(Compose(g, errors, msg).value[|msg|]))
    decreases |errors|
  {
    if errors != [] && Compose(g, errors, msg).Ok? {
      var b := ComposeFirstBlock(g, errors, msg);
      var r := Compose(g, errors, msg).value;
      ComposeExtends(g, errors[1..], msg + b);
      PrefixThroughBlock(msg, b, r);
      assert r[|msg|] == (msg + Header)[|msg|];
    }
  }

  /** Each error node adds at least a header and a newline, 18 characters, to the message. */
  lemma {:induction false} ComposeGrows(g: Guest, errors: seq<string>, msg: string)
    ensures Compose(g, errors, msg).Ok? ==> |msg| + 18 * |errors| <= |Compose(g, errors, msg).value|
    decreases |errors|
  {
    if errors != [] && Compose(g, errors, msg).Ok? {
      var b := ComposeFirstBlock(g, errors, msg);
      ComposeGrows(g, errors[1..], msg + b);
      assert |Header| + 1 == 18;
    }
  }

  /** The block the first error node adds, after which composing goes on with the other nodes. */
  lemma ComposeFirstBlock(g: Guest, errors: seq<string>, msg: string) returns (b: string)
    requires errors != [] && Compose(g, errors, msg).Ok?
    ensures Header <= b && |b| > |Header|
    ensures Compose(g, errors, msg) == Compose(g, errors[1..], msg + b)
  {
    var file := ErrorFile(errors[0]).value;
    var detail := CollectDetail(g, errors[0], g.augMatch(errors[0] + "//*").value, map[]).value;
    b := Block(file, detail);
    assert b[..|Header|] == (Header + file)[..|Header|];
  }

  lemma PrefixThroughBlock(msg: string, b: string, r: string)
    requires Header <= b && msg + b <= r
    ensures msg <= r && msg + Header <= r
  {
    assert r[..|msg|] == (msg + b)[..|msg|];
    assert (msg + b)[..|msg| + |Header|] == msg + Header;
    assert r[..|msg| + |Header|] == (msg + b)[..|msg| + |Header|];
  }

  lemma BlankMessage(ex: string, errors: seq<string>, msg: string)
    requires ex + "\n" <= msg
    requires errors != [] ==> |msg| > |ex + "\n"| && !IsSpace(msg[|ex + "\n"|])
    requires errors == [] ==> msg == ex + "\n"
    ensures AllSpace(msg) <==> AllSpace(ex) && errors == []
  {
    if errors == [] {
      if AllSpace(ex) {
        forall i | 0 <= i < |msg| ensures IsSpace(msg[i]) {
          if i < |ex| { assert msg[i] == ex[i]; }
        }
      } else {
        var i :| 0 <= i < |ex| && !IsSpace(ex[i]);
        assert msg[i] == ex[i];
      }
    } else {
      assert !IsSpace(msg[|ex + "\n"|]);
    }
  }

  /** augeas_error as the source writes it: a loop over the error nodes accumulating `msg`. */
  method AugeasError(g: Guest, ex: string) returns (e: Error)
    ensures e == Diagnose(g, ex)
  {
    var errors := g.augMatch(ErrorPattern);
    if errors.Raise? {
      return ConversionError(Combined(errors.msg, ex));
    }
    var msg := ex + "\n";
    var i := 0;
    while i < |errors.value|
      invariant 0 <= i <= |errors.value|
      invariant Compose(g, errors.value, ex + "\n") == Compose(g, errors.value[i..], msg)
    {
      var error := errors.value[i];
      assert errors.value[i..][0] == error && errors.value[i..][1..] == errors.value[i + 1..];
      var file := ErrorFile(error);
      if file.None? {
        return PythonError(NoGroup);
      }
      var details := g.augMatch(error + "//*");
      if details.Raise? {
        return ConversionError(Combined(details.msg, ex));
      }
      var detail := ReadDetail(g, error, details.value);
      if detail.Fail? {
        return if detail.err.GuestFSError? then ConversionError(Combined(detail.err.msg, ex)) else detail.err;
      }
      msg := AppendBlock(msg, file.value, detail.value);
      i := i + 1;
    }
    msg := Strip(msg);
    if |msg| > 0 {
      return ConversionError(msg);
    }
    return GuestFSError(ex);
  }

  /** The inner loop of augeas_error: fills the `detail` dict of one error node. */
  method ReadDetail(g: Guest, error: string, paths: seq<string>) returns (r: Result<map<string, string>>)
    ensures r == CollectDetail(g, error, paths, map[])
  {
    var detail: map<string, string> := map[];
    var j := 0;
    while j < |paths|
      invariant 0 <= j <= |paths|
      invariant CollectDetail(g, error, paths, map[]) == CollectDetail(g, error, paths[j..], detail)
    {
      var path := paths[j];
      assert paths[j..][0] == path && paths[j..][1..] == paths[j + 1..];
      var value := g.augGet(path);
      if value.Raise? {
        return Fail(GuestFSError(value.msg));
      }
      var key := DetailKey(error, path);
      if key.None? {
        return Fail(PythonError(NoGroup));
      }
      detail := detail[key.value := value.value];
      j := j + 1;
    }
    return Ok(detail);
  }

  /** The `msg +=` steps that report one error node. */
  method AppendBlock(msg: string, file: string, detail: map<string, string>) returns (out: string)
    ensures out == msg + Block(file, detail)
  {
    out := msg + (Header + file);
    if "message" in detail {
      out := out + (": " + detail["message"]);
    }
    out := out + "\n";
    ghost var head := out;
    if "pos" in detail && "line" in detail && "char" in detail {
      out := out + ("error at line " + detail["line"] + ", char " + detail["char"]
                   + ", file position " + detail["pos"] + "\n");
    }
    ghost var mid := out;
    if "lens" in detail {
      out := out + ("augeas lens: " + detail["lens"] + "\n");
    }
    FileLineAppended(msg, file, detail, head);
    assert mid == head + PositionLine(detail);
    assert out == mid + LensLine(detail);
    Append3(msg, FileLine(file, detail), PositionLine(detail), LensLine(detail));
  }

  lemma FileLineAppended(msg: string, file: string, detail: map<string, string>, head: string)
    requires head == msg + (Header + file) + (if "message" in detail then ": " + detail["message"] else "") + "\n"
    ensures head == msg + FileLine(file, detail)
  {
  }

  lemma Append3(m: string, a: string, b: string, c: string)
    ensures m + (a + b + c) == m + a + b + c
  {
  }
}
