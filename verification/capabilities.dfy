/** The capability index of src/capabilities.rs: the fixed set of builtin
    names, the name-to-location map built from the executables found on the
    search path, the membership queries, and the pure parts of the builtin
    handlers.

    The directory scan is concurrent in the source: worker threads send
    `(name, location)` pairs over a channel in an order nobody controls, and
    one collector folds them into the map. Here the arrival order is an
    arbitrary sequence, so every property of the fold holds for every
    interleaving. */
module Capabilities {
  import opened Wrappers
  import opened Text
  import opened ArgsParser

  /** The handler result of capabilities.rs: `EXIT`, or `CONTIUE` with the
      text the handler produced, if any. */
  datatype ExecutionResult = Exit | Continue(output: Option<string>)

  /** `Capabilities`: the builtin names and the executable index, each
      executable's location given as its path string. */
  datatype Capabilities = Capabilities(commands: set<string>, executables: map<string, string>)

  const Builtins: set<string> := {"echo", "exit", "type", "pwd", "cd"}

  /** A location under the system binary directory is never overwritten. */
  predicate Privileged(location: string) {
    "/usr/bin" <= location
  }

  /** The names that arrived on the channel. */
  function Names(scan: seq<(string, string)>): set<string> {
    set i | 0 <= i < |scan| :: scan[i].0
  }

  // ---------------------------------------------------------------------
  // The collector

  /** One iteration of the collector loop. */
  function Insert(files: map<string, string>, entry: (string, string)): (r: map<string, string>)
    ensures r.Keys == files.Keys + {entry.0}
    ensures forall n :: n in files && n != entry.0 ==> r[n] == files[n]
    ensures entry.0 in files && Privileged(files[entry.0]) ==> r[entry.0] == files[entry.0]
    ensures !(entry.0 in files && Privileged(files[entry.0])) ==> r[entry.0] == entry.1
  {
    var (name, location) := entry;
    if name in files && Privileged(files[name]) then files else files[name := location]
  }

  /** The collector loop over every pair in arrival order. */
  function Collect(scan: seq<(string, string)>): (files: map<string, string>)
    ensures files.Keys == Names(scan)
    ensures forall n :: n in files ==> (n, files[n]) in scan
    decreases |scan|
  {
    if scan == [] then map[]
    else
      var init := scan[..|scan| - 1];
      var files := Insert(Collect(init), scan[|scan| - 1]);
      assert forall i :: 0 <= i < |init| ==> init[i] == scan[i];
      assert Names(scan) == Names(init) + {scan[|scan| - 1].0};
      files
  }

  /** Reference: the location of the first privileged pair for `name`. */
  function FirstPrivileged(scan: seq<(string, string)>, name: string): Option<string>
    decreases |scan|
  {
    if scan == [] then None
    else
      match FirstPrivileged(scan[..|scan| - 1], name)
      case Some(p) => Some(p)
      case None =>
        var (n, p) := scan[|scan| - 1];
        if n == name && Privileged(p) then Some(p) else None
  }

  /** Reference: the location of the last pair for `name`. */
  function LastLocation(scan: seq<(string, string)>, name: string): Option<string>
    decreases |scan|
  {
    if scan == [] then None
    else if scan[|scan| - 1].0 == name then Some(scan[|scan| - 1].1)
    else LastLocation(scan[..|scan| - 1], name)
  }

  /** Reference: the first privileged location if there is one, otherwise
      the last one to arrive. */
  function Winner(scan: seq<(string, string)>, name: string): Option<string> {
    match FirstPrivileged(scan, name)
    case Some(p) => Some(p)
    case None => LastLocation(scan, name)
  }

  lemma {:induction false} FirstPrivilegedSound(scan: seq<(string, string)>, name: string)
    ensures FirstPrivileged(scan, name).Some? ==>
              (name, FirstPrivileged(scan, name).value) in scan
              && Privileged(FirstPrivileged(scan, name).value)
    ensures FirstPrivileged(scan, name).None? ==>
              forall i :: 0 <= i < |scan| && scan[i].0 == name ==> !Privileged(scan[i].1)
    decreases |scan|
  {
    if scan != [] {
      var init := scan[..|scan| - 1];
      FirstPrivilegedSound(init, name);
      assert forall i :: 0 <= i < |init| ==> init[i] == scan[i];
      assert forall x :: x in init ==> x in scan;
      var last := scan[|scan| - 1];
      assert last in scan;
      if FirstPrivileged(init, name).None? && last.0 == name && Privileged(last.1) {
        assert FirstPrivileged(scan, name) == Some(last.1);
        assert (name, last.1) == last;
      }
    }
  }

  /** The fold agrees with the reference: the first privileged location
      wins; without one, the last arrival wins. */
  lemma {:induction false} CollectIsWinner(scan: seq<(string, string)>, name: string)
    ensures name in Collect(scan) <==> Winner(scan, name).Some?
    ensures name in Collect(scan) ==> Collect(scan)[name] == Winner(scan, name).value
    decreases |scan|
  {
    if scan != [] {
      var init := scan[..|scan| - 1];
      var (n, p) := scan[|scan| - 1];
      var before := Collect(init);
      CollectIsWinner(init, name);
      assert Collect(scan) == Insert(before, (n, p));
      if n != name {
        assert FirstPrivileged(scan, name) == FirstPrivileged(init, name);
        assert LastLocation(scan, name) == LastLocation(init, name);
      } else if name in before && Privileged(before[name]) {
        if FirstPrivileged(init, name).None? {
          assert Winner(init, name) == LastLocation(init, name);
          LastIsPrivileged(init, name);
          FirstPrivilegedSound(init, name);
          assert false;
        }
        assert FirstPrivileged(scan, name) == FirstPrivileged(init, name);
      } else {
        if FirstPrivileged(init, name).Some? {
          FirstPrivilegedSound(init, name);
          assert false;
        }
        assert LastLocation(scan, name) == Some(p);
        assert Winner(scan, name) == Some(p);
      }
    }
  }

  lemma {:induction false} LastIsPrivileged(scan: seq<(string, string)>, name: string)
    requires LastLocation(scan, name).Some? && Privileged(LastLocation(scan, name).value)
    ensures exists i :: 0 <= i < |scan| && scan[i].0 == name && Privileged(scan[i].1)
    decreases |scan|
  {
    if scan[|scan| - 1].0 != name {
      var init := scan[..|scan| - 1];
      LastIsPrivileged(init, name);
      var i :| 0 <= i < |init| && init[i].0 == name && Privileged(init[i].1);
      assert scan[i] == init[i];
    }
  }

  /** An entry whose location is privileged is never replaced by anything
      that arrives later. */
  lemma {:induction false} PrivilegedIsNeverReplaced(s1: seq<(string, string)>, s2: seq<(string, string)>, name: string)
    requires name in Collect(s1) && Privileged(Collect(s1)[name])
    ensures name in Collect(s1 + s2) && Collect(s1 + s2)[name] == Collect(s1)[name]
    decreases |s2|
  {
    if s2 == [] {
      assert s1 + s2 == s1;
    } else {
      var init := s2[..|s2| - 1];
      PrivilegedIsNeverReplaced(s1, init, name);
      assert (s1 + s2)[..|s1 + s2| - 1] == s1 + init;
    }
  }

  /** Any other entry is overwritten by the next pair with the same name. */
  lemma LaterArrivalOverwrites(scan: seq<(string, string)>, name: string, location: string)
    requires !(name in Collect(scan) && Privileged(Collect(scan)[name]))
    ensures Collect(scan + [(name, location)])[name] == location
  {
    assert (scan + [(name, location)])[..|scan|] == scan;
  }

  /** The privileged locations that arrived for `name`. */
  function PrivilegedLocations(scan: seq<(string, string)>, name: string): set<string> {
    set i | 0 <= i < |scan| && scan[i].0 == name && Privileged(scan[i].1) :: scan[i].1
  }

  /** Whatever the arrival order: the same names are indexed; a name with a
      privileged location resolves to a privileged location; and a name
      with exactly one privileged location resolves to it. */
  lemma ArrivalOrderIrrelevant(s: seq<(string, string)>, t: seq<(string, string)>, name: string)
    requires multiset(s) == multiset(t)
    ensures Collect(s).Keys == Collect(t).Keys
    ensures PrivilegedLocations(s, name) != {} ==>
              name in Collect(s) && Privileged(Collect(s)[name])
    ensures (exists p :: PrivilegedLocations(s, name) == {p}) ==>
              name in Collect(s) && name in Collect(t) && Collect(s)[name] == Collect(t)[name]
  {
    assert forall x :: x in s <==> x in t by {
      forall x ensures x in s <==> x in t {
        assert x in s <==> x in multiset(s);
        assert x in t <==> x in multiset(t);
      }
    }
    assert Names(s) == Names(t) by {
      forall n | n in Names(s) ensures n in Names(t) {
        var i :| 0 <= i < |s| && s[i].0 == n;
        assert s[i] in t;
      }
      forall n | n in Names(t) ensures n in Names(s) {
        var i :| 0 <= i < |t| && t[i].0 == n;
        assert t[i] in s;
      }
    }
    assert PrivilegedLocations(s, name) == PrivilegedLocations(t, name) by {
      forall p | p in PrivilegedLocations(s, name) ensures p in PrivilegedLocations(t, name) {
        var i :| 0 <= i < |s| && s[i].0 == name && Privileged(s[i].1) && s[i].1 == p;
        assert s[i] in t;
        var j :| 0 <= j < |t| && t[j] == s[i];
      }
      forall p | p in PrivilegedLocations(t, name) ensures p in PrivilegedLocations(s, name) {
        var i :| 0 <= i < |t| && t[i].0 == name && Privileged(t[i].1) && t[i].1 == p;
        assert t[i] in s;
        var j :| 0 <= j < |s| && s[j] == t[i];
      }
    }
    if PrivilegedLocations(s, name) != {} {
      PrivilegedWins(s, name);
      PrivilegedWins(t, name);
    }
  }

  lemma PrivilegedWins(scan: seq<(string, string)>, name: string)
    requires PrivilegedLocations(scan, name) != {}
    ensures name in Collect(scan)
    ensures Collect(scan)[name] in PrivilegedLocations(scan, name)
  {
    var p :| p in PrivilegedLocations(scan, name);
    FirstPrivilegedSound(scan, name);
    CollectIsWinner(scan, name);
    var w := FirstPrivileged(scan, name).value;
    var j :| 0 <= j < |scan| && scan[j] == (name, w);
    assert w in PrivilegedLocations(scan, name);
  }

  // ---------------------------------------------------------------------
  // Construction and queries

  /** `Capabilities::new`, given the pairs the directory scan delivered. */
  function New(scan: seq<(string, string)>): (caps: Capabilities)
    ensures caps.executables.Keys == Names(scan)
    ensures forall n :: n in caps.commands <==> n in Builtins
  {
    Capabilities(Builtins, Collect(scan))
  }

  /** `is_executable`: the name has a location `get_location` can report. */
  function IsExecutable(caps: Capabilities, name: string): (b: bool)
    ensures b <==> GetLocation(caps, name).Success?
  {
    name in caps.executables
  }

  /** `is_builtin`: with the standard set, exactly the five builtin names. */
  function IsBuiltin(caps: Capabilities, name: string): (b: bool)
    ensures caps.commands == Builtins ==>
              (b <==> name == "echo" || name == "exit" || name == "type" || name == "pwd" || name == "cd")
  {
    name in caps.commands
  }

  /** `is_exec_or_builtin`: a builtin, or a name `get_location` resolves. */
  function IsExecOrBuiltin(caps: Capabilities, name: string): (b: bool)
    ensures b <==> IsBuiltin(caps, name) || GetLocation(caps, name).Success?
  {
    IsExecutable(caps, name) || IsBuiltin(caps, name)
  }

  /** `get_location`: the indexed location, or an error for a name that is
      not indexed. */
  function GetLocation(caps: Capabilities, name: string): (r: Result<string, Unit>)
    ensures r.Success? <==> name in caps.executables
    ensures r.Success? ==> r.value == caps.executables[name]
  {
    if name in caps.executables then Success(caps.executables[name]) else Failure(Unit)
  }

  /** The queries on a freshly built index, stated in terms of the scan. */
  lemma NewQueries(scan: seq<(string, string)>, name: string)
    ensures IsBuiltin(New(scan), name) <==>
              name == "echo" || name == "exit" || name == "type" || name == "pwd" || name == "cd"
    ensures IsExecutable(New(scan), name) <==> exists i :: 0 <= i < |scan| && scan[i].0 == name
    ensures IsExecOrBuiltin(New(scan), name) <==> IsBuiltin(New(scan), name) || name in Names(scan)
    ensures GetLocation(New(scan), name)
         == (match Winner(scan, name) case Some(p) => Success(p) case None => Failure(Unit))
  {
    CollectIsWinner(scan, name);
  }

  // ---------------------------------------------------------------------
  // Builtin handlers

  /** `echo`: the arguments joined with no separator (the tokens carry their
      own separating spaces). */
  function Echo(args: seq<string>): (r: ExecutionResult)
    ensures r.Continue? && r.output.Some?
    ensures args == [] ==> r.output.value == []
    ensures |args| == 1 ==> r.output.value == args[0]
  {
    var output := if |args| == 0 then [] else Join(args);
    Continue(Some(output))
  }

  /** Echoing two token lists one after the other prints their outputs side
      by side: no separator is inserted between tokens. */
  lemma EchoConcatenates(a: seq<string>, b: seq<string>)
    ensures Echo(a + b).output.value == Echo(a).output.value + Echo(b).output.value
  {
    JoinAppend(a, b);
  }

  /** Echoing what the tokenizer made of a plain argument string prints the
      string with its runs of spaces collapsed to one. */
  lemma EchoCollapsesSpaces(s: string)
    requires Plain(s)
    ensures Echo(Tokenize(s)) == Continue(Some(CollapseSpaces(s)))
  {
    TokensJoinToCollapsedInput(s);
  }

  /** `exit`: ends the read-eval loop, whatever the arguments. */
  function ExitCommand(args: seq<string>): (r: ExecutionResult)
    ensures r.Exit?
  {
    Exit
  }

  /** The line `type_` prints: builtins are checked before executables. */
  function TypeMessage(caps: Capabilities, args: seq<string>): (msg: string)
    ensures args == [] ==> msg == ": not found"
    ensures args != [] && IsBuiltin(caps, args[0]) ==> msg == args[0] + " is a shell builtin"
    ensures args != [] && !IsBuiltin(caps, args[0]) && IsExecutable(caps, args[0]) ==>
              msg == args[0] + " is " + caps.executables[args[0]]
    ensures args != [] && !IsExecOrBuiltin(caps, args[0]) ==> msg == args[0] + ": not found"
  {
    if |args| == 0 then ": not found"
    else if IsBuiltin(caps, args[0]) then args[0] + " is a shell builtin"
    else match GetLocation(caps, args[0])
      case Success(location) => args[0] + " is " + location
      case Failure(_) => args[0] + ": not found"
  }

  /** `type_`: prints its message and produces no output of its own. */
  function Type(caps: Capabilities, args: seq<string>): (r: (string, ExecutionResult))
    ensures r.1 == Continue(None)
    ensures r.0 == TypeMessage(caps, args)
  {
    (TypeMessage(caps, args), Continue(None))
  }

  /** The path string `cd` works on before touching the filesystem: the
      first argument, or "~" without one; when it starts with "~", every
      "~" in it is replaced by the HOME value. */
  function CdTarget(args: seq<string>, home: string): (target: string)
    ensures args == [] ==> target == home
    ensures args != [] && !("~" <= args[0]) ==> target == args[0]
    ensures args != [] && "~" <= args[0] ==> home <= target
    ensures args != [] && "~" <= args[0] ==> target == home + Replace(args[0][1..], '~', home)
    ensures (args == [] || "~" <= args[0]) && '~' !in home ==> '~' !in target
  {
    var path := if |args| == 0 then "~" else args[0];
    if "~" <= path then
      assert path == "~" + path[1..];
      ReplaceAppend("~", path[1..], '~', home);
      Replace(path, '~', home)
    else path
  }

  /** With a HOME value free of "~", resolving the result again changes
      nothing: no "~" survives the first pass. */
  lemma CdTargetSettles(args: seq<string>, home: string)
    requires '~' !in home
    ensures CdTarget([CdTarget(args, home)], home) == CdTarget(args, home)
  {
    var t := CdTarget(args, home);
    if args == [] || "~" <= args[0] {
      assert '~' !in t;
      if t != [] {
        assert t[0] in t;
      }
    }
  }
}
