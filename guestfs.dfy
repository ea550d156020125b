/**
 * The guest-filesystem handle `h`, frozen as an immutable snapshot of what each
 * of its calls answers for one inspected root.
 */
module GuestFs {

  /** The answer of a handle call that may raise a RuntimeError. */
  datatype Reply<+T> = Answer(value: T) | Raise(msg: string)

  datatype Guest = Guest(
    existing: set<string>,                      // h.exists(path)
    inspectMounts: map<string, string>,         // h.inspect_get_mountpoints(root): mount path -> device
    mountpoints: map<string, string>,           // h.mountpoints(): device -> mount path
    augMatch: string -> Reply<seq<string>>,     // h.aug_match(tree path)
    augGet: string -> Reply<string>,            // h.aug_get(tree path)
    globs: map<string, seq<string>>,            // h.glob_expand(pattern); absent pattern: no match
    grubbyDefault: Reply<string>,               // h.command(['grubby', '--default-kernel'])
    grubbyInfo: string -> Reply<seq<string>>,   // h.command_lines(['grubby', '--info', path])
    devices: seq<string>,                       // h.list_devices()
    gptType: map<(string, int), string>,        // h.part_get_gpt_type(device, n); absent key: it raises
    find: string -> Reply<seq<string>>          // h.find(directory)
  )

  function Glob(g: Guest, pattern: string): seq<string>
  {
    if pattern in g.globs then g.globs[pattern] else []
  }
}
