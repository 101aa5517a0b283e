/**
 * Program: the main menu and the seven actions it dispatches to. The C#
 * program keeps the configuration in a static field and moves between the
 * menu and the actions by mutual recursion (ShowMenu -> action -> ShowMenu);
 * here the configuration is one ConfigRoot object that every action updates
 * in place, and the recursion is the loop of Run. Saving writes JSON to a
 * file, which is outside the model; what remains of it is the sort by id.
 */
module Program {
  import opened Strings
  import opened Config
  import opened TargetOrder
  import opened Ask
  import opened WriteLine
  import opened TargetActions
  import Tcp

  // ---------------------------------------------------------------------------
  // Connect: the launch command
  // ---------------------------------------------------------------------------

  /** The three placeholders of the launch template. */
  const IpToken: string := "{$IP}"
  const PortToken: string := "{$Port}"
  const UserToken: string := "{$Username}"

  /** Exec with the placeholders replaced one after the other: the host,
      then the port in decimal, then the user. Text substituted earlier is
      scanned again by the later replacements. */
  function Substitute(exec: string, ip: string, port: int, username: string): string {
    ReplaceAll(ReplaceAll(ReplaceAll(exec, IpToken, ip), PortToken, FormatInt(port)), UserToken, username)
  }

  /** The launch command holds only characters of the template and of the
      target's host, port and user. */
  lemma SubstituteChars(exec: string, ip: string, port: int, username: string)
    ensures forall c :: c in Substitute(exec, ip, port, username) ==> c in exec || c in ip || c in FormatInt(port) || c in username
  {
    var s1 := ReplaceAll(exec, IpToken, ip);
    var s2 := ReplaceAll(s1, PortToken, FormatInt(port));
    ReplaceChars(exec, IpToken, ip);
    ReplaceChars(s1, PortToken, FormatInt(port));
    ReplaceChars(s2, UserToken, username);
  }

  /** A template without `{` holds no placeholder and is used as it is. */
  lemma SubstitutePlain(exec: string, ip: string, port: int, username: string)
    requires '{' !in exec
    ensures Substitute(exec, ip, port, username) == exec
  {
    ReplaceAbsent(exec, IpToken, ip);
    ReplaceAbsent(exec, PortToken, FormatInt(port));
    ReplaceAbsent(exec, UserToken, username);
  }

  /** The arguments the default template produces. */
  function SshArgs(username: string, ip: string, port: int): string {
    username + "@" + ip + " -p " + FormatInt(port)
  }

  /** The default template addresses the user at the host on the port. */
  lemma DefaultTemplate(ip: string, port: int, username: string)
    requires '{' !in ip
    ensures Substitute(DefaultExec, ip, port, username) == "ssh " + SshArgs(username, ip, port)
  {
    var parts := [Text("ssh "), UserPart, Text("@"), HostPart, Text(" -p "), PortPart];
    var p := FormatInt(port);
    SpellSix(parts, IpToken, PortToken, UserToken);
    DefaultExecShape();
    assert Concat(Spelled(parts, IpToken, PortToken, UserToken)) == DefaultExec;
    TemplateFills(parts, ip, port, username);
    SpellSix(parts, ip, p, username);
    Regroup("ssh ", username, "@", ip, " -p ", p);
  }

  /** The default template is the user placeholder, `@`, the host
      placeholder, ` -p ` and the port placeholder, after `ssh `. */
  lemma DefaultExecShape()
    ensures DefaultExec == "ssh " + UserToken + "@" + IpToken + " -p " + PortToken
  {
    var a := "ssh " + UserToken;
    var b := a + "@" + IpToken;
    assert a == "ssh {$Username}";
    assert b == "ssh {$Username}@{$IP}";
    assert b + " -p " + PortToken == "ssh {$Username}@{$IP} -p {$Port}";
  }

  /** Re-association of a six-part concatenation. */
  lemma Regroup<T>(a: seq<T>, b: seq<T>, c: seq<T>, d: seq<T>, e: seq<T>, f: seq<T>)
    ensures a + b + c + d + e + f == a + (b + c + d + e + f)
  {
  }

  /** The default template's six parts, spelled out. */
  lemma SpellSix(parts: seq<Part>, host: string, port: string, user: string)
    requires parts == [Text("ssh "), UserPart, Text("@"), HostPart, Text(" -p "), PortPart]
    ensures Concat(Spelled(parts, host, port, user)) == "ssh " + user + "@" + host + " -p " + port
  {
    var xs := Spelled(parts, host, port, user);
    assert xs == ["ssh ", user, "@", host, " -p ", port];
    assert xs[1..][1..][1..][1..][1..][1..] == [];
    assert Concat(xs[5..]) == port;
    assert Concat(xs[4..]) == " -p " + port;
    assert Concat(xs[3..]) == host + (" -p " + port);
    assert Concat(xs[2..]) == "@" + (host + (" -p " + port));
    assert Concat(xs[1..]) == user + ("@" + (host + (" -p " + port)));
  }

  /** No placeholder is a prefix of another. */
  lemma PlaceholdersDiffer()
    ensures Token(UserToken) && Token(IpToken) && Token(PortToken)
    ensures Differs(UserToken, IpToken) && Differs(PortToken, IpToken) && Differs(UserToken, PortToken)
  {
    assert UserToken[..|IpToken|][2] == UserToken[2] != IpToken[2];
    assert PortToken[..|IpToken|][2] == PortToken[2] != IpToken[2];
    assert UserToken[..|PortToken|][2] == UserToken[2] != PortToken[2];
  }

  /** A placeholder: `{` followed by text without `{`. */
  predicate Token(t: string) {
    t != [] && t[0] == '{' && '{' !in t[1..]
  }

  /** Placeholder a does not start with placeholder b. */
  predicate Differs(a: string, b: string) {
    |a| >= |b| && a[..|b|] != b
  }

  /** A launch template as its author writes it: literal text and the three
      placeholders, in any order and any number. */
  datatype Part = Text(s: string) | UserPart | HostPart | PortPart

  /** One part, with the given text standing for each placeholder. */
  function Spell(part: Part, host: string, port: string, user: string): string {
    match part
    case Text(s) => s
    case UserPart => user
    case HostPart => host
    case PortPart => port
  }

  function Spelled(parts: seq<Part>, host: string, port: string, user: string): seq<string> {
    seq(|parts|, j requires 0 <= j < |parts| => Spell(parts[j], host, port, user))
  }

  /** The pieces written one after the other. */
  function Concat(xs: seq<string>): string {
    if xs == [] then "" else xs[0] + Concat(xs[1..])
  }

  /** The pieces with every piece equal to pat exchanged for rep. */
  function Swap(xs: seq<string>, pat: string, rep: string): seq<string> {
    seq(|xs|, j requires 0 <= j < |xs| => if xs[j] == pat then rep else xs[j])
  }

  /** A piece a pass for pat goes over whole: pat itself, text without `{`,
      or a placeholder that does not start with pat. */
  predicate Passable(x: string, pat: string) {
    x == pat || '{' !in x || (Token(x) && Differs(x, pat))
  }

  /** One String.Replace pass over such pieces replaces exactly the pieces
      equal to the placeholder. */
  lemma {:induction false} PassOver(xs: seq<string>, pat: string, rep: string)
    requires Token(pat)
    requires forall j :: 0 <= j < |xs| ==> Passable(xs[j], pat)
    ensures ReplaceAll(Concat(xs), pat, rep) == Concat(Swap(xs, pat, rep))
    decreases |xs|
  {
    if xs != [] {
      var x, rest := xs[0], Concat(xs[1..]);
      assert Swap(xs[1..], pat, rep) == Swap(xs, pat, rep)[1..];
      PassOver(xs[1..], pat, rep);
      if x == pat {
        ReplaceHit(rest, pat, rep);
      } else if '{' !in x {
        ReplaceSkipsPlain(x, rest, pat, rep);
      } else {
        ReplaceOther(x, rest, pat, rep);
      }
    }
  }

  /** The literal text of a template holds no `{`. */
  predicate PlainText(parts: seq<Part>) {
    forall j :: 0 <= j < |parts| ==> parts[j].Text? ==> '{' !in parts[j].s
  }

  /** Substituting into a template whose literal text holds no `{` puts each
      value where its placeholders stood, whatever their order and number,
      as long as the host holds no `{` (the port, in decimal, never does). */
  lemma TemplateFills(parts: seq<Part>, ip: string, port: int, username: string)
    requires PlainText(parts)
    requires '{' !in ip
    ensures Substitute(Concat(Spelled(parts, IpToken, PortToken, UserToken)), ip, port, username)
         == Concat(Spelled(parts, ip, FormatInt(port), username))
  {
    DigitsHaveNoBrace(port);
    HostPassOver(parts, ip);
    PortPassOver(parts, ip, FormatInt(port));
    UserPassOver(parts, ip, FormatInt(port), username);
  }

  lemma HostPassOver(parts: seq<Part>, ip: string)
    requires PlainText(parts) && '{' !in ip
    ensures ReplaceAll(Concat(Spelled(parts, IpToken, PortToken, UserToken)), IpToken, ip)
         == Concat(Spelled(parts, ip, PortToken, UserToken))
  {
    var s0 := Spelled(parts, IpToken, PortToken, UserToken);
    var s1 := Spelled(parts, ip, PortToken, UserToken);
    forall j | 0 <= j < |s0|
      ensures Passable(s0[j], IpToken) && Swap(s0, IpToken, ip)[j] == s1[j]
    {
      HostPiece(parts[j], ip);
    }
    PassOver(s0, IpToken, ip);
    assert Swap(s0, IpToken, ip) == s1;
  }

  lemma HostPiece(part: Part, ip: string)
    requires part.Text? ==> '{' !in part.s
    ensures var x := Spell(part, IpToken, PortToken, UserToken);
      Passable(x, IpToken) && (if x == IpToken then ip else x) == Spell(part, ip, PortToken, UserToken)
  {
    PlaceholdersDiffer();
    match part
    case Text(s) => assert IpToken[0] == '{';
    case UserPart => assert UserToken[2] != IpToken[2];
    case PortPart => assert PortToken[2] != IpToken[2];
    case HostPart =>
  }

  lemma PortPassOver(parts: seq<Part>, ip: string, port: string)
    requires PlainText(parts) && '{' !in ip && '{' !in port
    ensures ReplaceAll(Concat(Spelled(parts, ip, PortToken, UserToken)), PortToken, port)
         == Concat(Spelled(parts, ip, port, UserToken))
  {
    var s1 := Spelled(parts, ip, PortToken, UserToken);
    var s2 := Spelled(parts, ip, port, UserToken);
    forall j | 0 <= j < |s1|
      ensures Passable(s1[j], PortToken) && Swap(s1, PortToken, port)[j] == s2[j]
    {
      PortPiece(parts[j], ip, port);
    }
    PassOver(s1, PortToken, port);
    assert Swap(s1, PortToken, port) == s2;
  }

  lemma PortPiece(part: Part, ip: string, port: string)
    requires (part.Text? ==> '{' !in part.s) && '{' !in ip
    ensures var x := Spell(part, ip, PortToken, UserToken);
      Passable(x, PortToken) && (if x == PortToken then port else x) == Spell(part, ip, port, UserToken)
  {
    PlaceholdersDiffer();
    match part
    case Text(s) => assert PortToken[0] == '{';
    case HostPart => assert PortToken[0] == '{';
    case UserPart => assert UserToken[2] != PortToken[2];
    case PortPart =>
  }

  lemma UserPassOver(parts: seq<Part>, ip: string, port: string, username: string)
    requires PlainText(parts) && '{' !in ip && '{' !in port
    ensures ReplaceAll(Concat(Spelled(parts, ip, port, UserToken)), UserToken, username)
         == Concat(Spelled(parts, ip, port, username))
  {
    var s2 := Spelled(parts, ip, port, UserToken);
    var s3 := Spelled(parts, ip, port, username);
    forall j | 0 <= j < |s2|
      ensures Passable(s2[j], UserToken) && Swap(s2, UserToken, username)[j] == s3[j]
    {
      UserPiece(parts[j], ip, port, username);
    }
    PassOver(s2, UserToken, username);
    assert Swap(s2, UserToken, username) == s3;
  }

  lemma UserPiece(part: Part, ip: string, port: string, username: string)
    requires (part.Text? ==> '{' !in part.s) && '{' !in ip && '{' !in port
    ensures var x := Spell(part, ip, port, UserToken);
      Passable(x, UserToken) && (if x == UserToken then username else x) == Spell(part, ip, port, username)
  {
    PlaceholdersDiffer();
    match part
    case Text(s) => assert UserToken[0] == '{';
    case HostPart => assert UserToken[0] == '{';
    case PortPart => assert UserToken[0] == '{';
    case UserPart =>
  }

  /** A placeholder other than the one being replaced is copied. */
  lemma ReplaceOther(tok: string, y: string, pat: string, rep: string)
    requires |pat| > 0 && pat[0] == '{' && tok != [] && '{' !in tok[1..]
    requires |tok| >= |pat| && tok[..|pat|] != pat
    ensures ReplaceAll(tok + y, pat, rep) == tok + ReplaceAll(y, pat, rep)
  {
    var c := tok[0];
    assert tok + y == [c] + (tok[1..] + y);
    assert ([c] + (tok[1..] + y))[..|pat|] == tok[..|pat|];
    ReplaceMiss(c, tok[1..] + y, pat, rep);
    ReplaceSkipsPlain(tok[1..], y, pat, rep);
    assert [c] + (tok[1..] + ReplaceAll(y, pat, rep)) == tok + ReplaceAll(y, pat, rep);
  }

  /** The decimal form of a number never holds `{`. */
  lemma DigitsHaveNoBrace(n: int)
    ensures '{' !in FormatInt(n)
  {
    FormatHasOnlyDigits(n);
  }

  lemma FormatHasOnlyDigits(n: int)
    ensures forall i :: 0 <= i < |FormatInt(n)| ==> FormatInt(n)[i] == '-' || IsDigit(FormatInt(n)[i])
  {
  }

  /** Everything from the first non-space character on. */
  function SkipSpaces(s: string): (r: string)
    ensures |r| <= |s| && r == s[|s| - |r|..]
    ensures r != [] ==> r[0] != ' '
    ensures forall i :: 0 <= i < |s| - |r| ==> s[i] == ' '
  {
    if s != [] && s[0] == ' ' then SkipSpaces(s[1..]) else s
  }

  /** The length of the leading run of non-space characters. */
  function TokenLength(s: string): (k: nat)
    ensures k <= |s|
    ensures forall i :: 0 <= i < k ==> s[i] != ' '
    ensures k < |s| ==> s[k] == ' '
  {
    if s == [] || s[0] == ' ' then 0 else 1 + TokenLength(s[1..])
  }

  /** `exec.Split(' ', 2, RemoveEmptyEntries)`, then FileName is part 0 and
      Arguments part 1 or "": the executable is the first run of non-space
      characters and the arguments everything after the spaces that follow
      it. A command of spaces only has no part 0, which ends the program
      with an exception: None. That the split undoes a join by one space
      is SplitJoin. */
  function SplitCommand(s: string): (r: Option<(string, string)>)
    ensures r.None? <==> forall i :: 0 <= i < |s| ==> s[i] == ' '
    ensures r.Some? ==> |r.value.1| < |s| && r.value.1 == s[|s| - |r.value.1|..]
    ensures r.Some? ==> r.value.0 != [] && forall i :: 0 <= i < |r.value.0| ==> r.value.0[i] != ' '
    ensures r.Some? ==> r.value.1 == [] || r.value.1[0] != ' '
  {
    if s == [] then None
    else if s[0] == ' ' then SplitCommand(s[1..])
    else
      SplitParts(s);
      Some((s[..TokenLength(s)], SkipSpaces(s[TokenLength(s)..])))
  }

  /** The pieces SplitCommand cuts from text that starts with a non-space. */
  lemma SplitParts(t: string)
    requires t != [] && t[0] != ' '
    ensures var exe := t[..TokenLength(t)];
      exe != [] && forall i :: 0 <= i < |exe| ==> exe[i] != ' '
    ensures var args := SkipSpaces(t[TokenLength(t)..]);
      |args| < |t| && args == t[|t| - |args|..]
  {
    var k := TokenLength(t);
    var args := SkipSpaces(t[k..]);
    SuffixOfSuffix(t, t[k..], args);
  }

  /** Joining an executable and its arguments with one space and splitting
      again gives both back; an executable alone gives empty arguments. */
  lemma SplitJoin(exe: string, args: string)
    requires exe != [] && ' ' !in exe
    requires args == [] || args[0] != ' '
    ensures SplitCommand(exe + " " + args) == Some((exe, args))
    ensures SplitCommand(exe) == Some((exe, ""))
  {
    var s := exe + " " + args;
    assert s[0] == exe[0];
    assert SkipSpaces(s) == s;
    TokenOf(exe, " " + args);
    assert s == exe + (" " + args);
    assert s[|exe|..] == " " + args;
    assert (" " + args)[1..] == args;
    assert SkipSpaces(" " + args) == SkipSpaces(args);
    assert exe[0] != ' ';
    TokenOf(exe, "");
    assert exe + "" == exe;
  }

  lemma {:induction false} TokenOf(exe: string, rest: string)
    requires ' ' !in exe
    requires rest == [] || rest[0] == ' '
    ensures TokenLength(exe + rest) == |exe|
    decreases |exe|
  {
    if exe != [] {
      assert (exe + rest)[1..] == exe[1..] + rest;
      TokenOf(exe[1..], rest);
    } else {
      assert exe + rest == rest;
    }
  }

  /** Leading spaces make no difference. */
  lemma SplitSkipsLeadingSpace(s: string)
    ensures SplitCommand(" " + s) == SplitCommand(s)
  {
    assert (" " + s)[1..] == s;
  }

  /** With the default template, the executable is `ssh` and the arguments
      are `user@host -p port`. */
  lemma DefaultLaunch(ip: string, port: int, username: string)
    requires '{' !in ip && ' ' !in ip && ' ' !in username
    ensures SplitCommand(Substitute(DefaultExec, ip, port, username)) == Some(("ssh", SshArgs(username, ip, port)))
  {
    DefaultTemplate(ip, port, username);
    var args := SshArgs(username, ip, port);
    assert "ssh " + args == "ssh" + " " + args;
    assert args[|username|] == '@';
    assert args[0] != ' ' by {
      if username != [] { assert args[0] == username[0]; } else { assert args[0] == '@'; }
    }
    SplitJoin("ssh", args);
  }

  /** The command Connect starts for target `t` under template `exec`. */
  function LaunchCommand(exec: string, t: TargetConfig): (r: Option<(string, string)>)
    reads t
    ensures r.None? <==> forall i :: 0 <= i < |Substitute(exec, t.IP, t.Port, t.Username)| ==> Substitute(exec, t.IP, t.Port, t.Username)[i] == ' '
  {
    SplitCommand(Substitute(exec, t.IP, t.Port, t.Username))
  }

  // ---------------------------------------------------------------------------
  // Removal by reference
  // ---------------------------------------------------------------------------

  /** `ts.Where(t => t != x)`: every element except the object x, in order. */
  function Without(ts: seq<TargetConfig>, x: TargetConfig): (r: seq<TargetConfig>)
    ensures x !in r
    ensures forall t :: t in r ==> t in ts && t != x
    ensures forall t :: t in ts && t != x ==> t in r
    ensures |r| <= |ts|
  {
    if ts == [] then []
    else if ts[0] == x then Without(ts[1..], x)
    else [ts[0]] + Without(ts[1..], x)
  }

  /** Removing an object that is not there changes nothing. */
  lemma {:induction false} WithoutAbsent(ts: seq<TargetConfig>, x: TargetConfig)
    requires x !in ts
    ensures Without(ts, x) == ts
  {
    if ts != [] {
      WithoutAbsent(ts[1..], x);
    }
  }

  /** Removal works piece by piece. */
  lemma {:induction false} WithoutConcat(a: seq<TargetConfig>, b: seq<TargetConfig>, x: TargetConfig)
    ensures Without(a + b, x) == Without(a, x) + Without(b, x)
  {
    if a == [] {
      assert a + b == b;
    } else {
      assert (a + b)[0] == a[0] && (a + b)[1..] == a[1..] + b;
      WithoutConcat(a[1..], b, x);
    }
  }

  /** An object that occurs once is removed from its place, and the others
      keep their order: one element fewer. */
  lemma WithoutOnce(a: seq<TargetConfig>, x: TargetConfig, b: seq<TargetConfig>)
    requires x !in a && x !in b
    ensures Without(a + [x] + b, x) == a + b
    ensures |Without(a + [x] + b, x)| == |a| + |b|
  {
    WithoutConcat(a + [x], b, x);
    WithoutConcat(a, [x], x);
    WithoutAbsent(a, x);
    WithoutAbsent(b, x);
    assert [x][1..] == [];
    assert Without([x], x) == [];
    assert Without(a + [x], x) == a;
  }

  /** In a registry with distinct ids each target occurs exactly once, so
      removing it by reference removes exactly one element. */
  lemma RemoveOnlyTheSelected(ts: seq<TargetConfig>, i: int)
    requires DistinctIds(ts) && 0 <= i < |ts|
    ensures Without(ts, ts[i]) == ts[..i] + ts[i + 1..]
    ensures |Without(ts, ts[i])| == |ts| - 1
  {
    var x := ts[i];
    assert ts == ts[..i] + [x] + ts[i + 1..];
    forall j | 0 <= j < |ts| && j != i
      ensures ts[j] != x
    {
      assert ts[j].id != ts[i].id;
    }
    assert x !in ts[..i];
    assert x !in ts[i + 1..];
    WithoutOnce(ts[..i], x, ts[i + 1..]);
  }

  /** Removal keeps the ids distinct. */
  lemma {:induction false} WithoutDistinct(ts: seq<TargetConfig>, x: TargetConfig)
    requires DistinctIds(ts)
    ensures DistinctIds(Without(ts, x))
  {
    if ts != [] {
      WithoutDistinct(ts[1..], x);
      if ts[0] != x {
        var r := Without(ts[1..], x);
        forall t | t in r
          ensures t.id != ts[0].id
        {
          var j :| 1 <= j < |ts| && ts[j] == t;
        }
        assert DistinctIds([ts[0]] + r) by {
          forall i, j | 0 <= i < j < |[ts[0]] + r|
            ensures ([ts[0]] + r)[i].id != ([ts[0]] + r)[j].id
          {
            if i == 0 {
              assert ([ts[0]] + r)[j] == r[j - 1] && r[j - 1] in r;
            } else {
              assert ([ts[0]] + r)[i] == r[i - 1] && ([ts[0]] + r)[j] == r[j - 1];
            }
          }
        }
      }
    }
  }

  /** Appending a target whose id no element holds keeps the ids distinct. */
  lemma AppendDistinct(ts: seq<TargetConfig>, x: TargetConfig)
    ensures DistinctIds(ts) && (forall t :: t in ts ==> t.id != x.id) ==> DistinctIds(ts + [x])
  {
    if !(DistinctIds(ts) && forall t :: t in ts ==> t.id != x.id) {
      return;
    }
    forall i, j | 0 <= i < j < |ts + [x]|
      ensures (ts + [x])[i].id != (ts + [x])[j].id
    {
      assert (ts + [x])[i] == ts[i];
      if j == |ts| {
        assert ts[i] in ts;
      } else {
        assert (ts + [x])[j] == ts[j];
      }
    }
  }

  /** Moving a target to the end keeps the ids distinct when its id is no
      other target's. */
  lemma MoveToEndDistinct(ts: seq<TargetConfig>, x: TargetConfig)
    ensures DistinctIds(ts) && (forall t :: t in ts && t != x ==> t.id != x.id) ==> DistinctIds(Without(ts, x) + [x])
  {
    if DistinctIds(ts) && forall t :: t in ts && t != x ==> t.id != x.id {
      WithoutDistinct(ts, x);
      AppendDistinct(Without(ts, x), x);
    }
  }

  // ---------------------------------------------------------------------------
  // The actions
  // ---------------------------------------------------------------------------

  /** How an action hands control back: to the main menu; nowhere, because
      the input ran out while the program waited for it; or by an unhandled
      exception. */
  datatype Step = Back | Blocked | Crashed

  /** `Console.ReadKey(true)` before the menu is shown again: any key will
      do; with no key left the program waits for ever. */
  function AnyKey(keys: seq<Key>): (Step, seq<Key>) {
    if keys == [] then (Blocked, []) else (Back, keys[1..])
  }

  /** `Config = Save(Config)` followed by `Console.ReadKey(true)`: the
      registry is sorted by id (and written out), then a key is awaited. */
  method SaveAndWait(config: ConfigRoot, keys: seq<Key>) returns (step: Step, rest: seq<Key>)
    modifies config
    ensures config.Targets == SortById(old(config.Targets)) && config.Exec == old(config.Exec)
    ensures (step, rest) == AnyKey(keys)
    ensures old(DistinctIds(config.Targets)) ==> DistinctIds(config.Targets)
  {
    SortTargets(config);
    if old(DistinctIds(config.Targets)) {
      SortByIdDistinct(old(config.Targets));
    }
    var k := AnyKey(keys);
    return k.0, k.1;
  }

  /** The end of AddTarget: a completed target is appended
      (`[.. Targets, newTarget]`) and SaveAndWait follows; otherwise back to the menu, or waiting for
      input that never comes. */
  method Register(config: ConfigRoot, outcome: Answer<TargetConfig>, keys: seq<Key>) returns (step: Step, rest: seq<Key>)
    modifies config
    ensures config.Exec == old(config.Exec)
    ensures outcome.Answered? ==> config.Targets == SortById(old(config.Targets) + [outcome.value]) && (step, rest) == AnyKey(keys)
    ensures outcome.Cancelled? ==> config.Targets == old(config.Targets) && step == Back && rest == keys
    ensures outcome.Unanswered? ==> config.Targets == old(config.Targets) && step == Blocked && rest == keys
    ensures old(DistinctIds(config.Targets) && (outcome.Answered? ==> forall s :: s in config.Targets ==> s.id != outcome.value.id))
            ==> DistinctIds(config.Targets)
    ensures |rest| <= |keys|
  {
    match outcome {
      case Unanswered =>
        step, rest := Blocked, keys;
      case Cancelled =>
        step, rest := Back, keys;
      case Answered(t) =>
        AppendDistinct(config.Targets, t);
        config.Targets := config.Targets + [t];
        step, rest := SaveAndWait(config, keys);
    }
  }

  /** `[.. Targets.Where(x => x != t), t]` followed by SaveAndWait: the
      edited object moves to the end before the sort. */
  method Replace(config: ConfigRoot, t: TargetConfig, keys: seq<Key>) returns (step: Step, rest: seq<Key>)
    modifies config
    ensures config.Targets == SortById(Without(old(config.Targets), t) + [t]) && config.Exec == old(config.Exec)
    ensures (step, rest) == AnyKey(keys)
    ensures old(DistinctIds(config.Targets) && forall s :: s in config.Targets && s != t ==> s.id != t.id) ==> DistinctIds(config.Targets)
  {
    MoveToEndDistinct(config.Targets, t);
    config.Targets := Without(config.Targets, t) + [t];
    step, rest := SaveAndWait(config, keys);
  }

  /** `[.. Targets.Where(x => x != t)]` followed by SaveAndWait. */
  method Remove(config: ConfigRoot, t: TargetConfig, keys: seq<Key>) returns (step: Step, rest: seq<Key>)
    modifies config
    ensures config.Targets == SortById(Without(old(config.Targets), t)) && config.Exec == old(config.Exec)
    ensures (step, rest) == AnyKey(keys)
    ensures old(DistinctIds(config.Targets)) ==> DistinctIds(config.Targets)
  {
    if DistinctIds(config.Targets) {
      WithoutDistinct(config.Targets, t);
    }
    config.Targets := Without(config.Targets, t);
    step, rest := SaveAndWait(config, keys);
  }

  /** A command as Process.Start receives it: a non-empty file name without
      spaces, and arguments that do not start with a space. */
  predicate WellFormed(cmd: (string, string)) {
    cmd.0 != [] && (forall i :: 0 <= i < |cmd.0| ==> cmd.0[i] != ' ') && (cmd.1 == [] || cmd.1[0] != ' ')
  }

  /** Connect: pick a target (probing those that ask for it), fill in the
      template, split it and start the command; a command of spaces only
      fails on `parts[0]`. The started command is returned. */
  method Connect(config: ConfigRoot, probe: Tcp.Probe, keys: seq<Key>)
    returns (step: Step, launched: Option<(string, string)>, rest: seq<Key>)
    ensures var (pick, after) := Pick(|config.Targets|, keys);
      match pick
      case Unanswered => step == Blocked && launched == None && rest == after
      case Cancelled => step == Back && launched == None && rest == after
      case Answered(i) =>
        launched == LaunchCommand(config.Exec, config.Targets[i])
        && (launched.None? ==> step == Crashed && rest == after)
        && (launched.Some? ==> (step, rest) == AnyKey(after))
    ensures launched.Some? ==> WellFormed(launched.value)
    ensures |rest| <= |keys|
  {
    var picked, after := SelectTarget(config, "\U{1B}[92m", true, probe, keys);
    match picked {
      case Unanswered =>
        return Blocked, None, after;
      case Cancelled =>
        return Back, None, after;
      case Answered(target) =>
        var exec := Substitute(config.Exec, target.IP, target.Port, target.Username);
        launched := SplitCommand(exec);
        if launched.None? {
          return Crashed, None, after;
        }
        var k := AnyKey(after);
        return k.0, launched, k.1;
    }
  }

  /** ListTargets: a two-row menu. Row 1 prints the targets; row 2 prints
      the settings through Show, which sorts the targets by id as a side
      effect; the rows that digits 3 to 9 select print nothing. */
  method ListTargets(config: ConfigRoot, keys: seq<Key>) returns (step: Step, rest: seq<Key>)
    modifies config
    ensures config.Exec == old(config.Exec)
    ensures var (sel, after) := Menu(2, true, 0, keys);
      (sel == Some(1) ==> config.Targets == SortById(old(config.Targets)))
      && (sel != Some(1) ==> config.Targets == old(config.Targets))
      && (sel.None? ==> step == Blocked && rest == after)
      && (sel == Some(-1) ==> step == Back && rest == after)
      && (sel.Some? && sel != Some(-1) ==> (step, rest) == AnyKey(after))
    ensures old(DistinctIds(config.Targets)) ==> DistinctIds(config.Targets)
    ensures |rest| <= |keys|
  {
    var selected, after := SelectableMenu(2, true, keys);
    if selected.None? {
      return Blocked, after;
    }
    if selected.value == -1 {
      return Back, after;
    }
    if selected.value == 1 {
      SortTargets(config);
      if old(DistinctIds(config.Targets)) {
        SortByIdDistinct(old(config.Targets));
      }
    }
    var k := AnyKey(after);
    return k.0, k.1;
  }

  /** A list of ids without repetitions. */
  predicate Unique(ids: seq<int>) {
    forall i, j :: 0 <= i < j < |ids| ==> ids[i] != ids[j]
  }

  /** Targets with distinct ids are distinct objects. */
  lemma DistinctRefs(ts: seq<TargetConfig>)
    requires DistinctIds(ts)
    ensures forall i, j :: 0 <= i < j < |ts| ==> ts[i] != ts[j]
  {
  }

  /** The ids stay distinct when every target but x keeps the id it had,
      and x either keeps its id too or now holds one no other target holds. */
  lemma EditKeepsDistinct(ts: seq<TargetConfig>, ids: seq<int>, x: TargetConfig)
    requires |ids| == |ts| && Unique(ids)
    requires forall i, j :: 0 <= i < j < |ts| ==> ts[i] != ts[j]
    requires forall i :: 0 <= i < |ts| && ts[i] != x ==> ts[i].id == ids[i]
    requires (forall i :: 0 <= i < |ts| && ts[i] == x ==> ts[i].id == ids[i])
          || (forall t :: t in ts && t != x ==> t.id != x.id)
    ensures DistinctIds(ts)
  {
    forall i, j | 0 <= i < j < |ts|
      ensures ts[i].id != ts[j].id
    {
      if ts[i] == x {
        assert ts[j] in ts;
      } else if ts[j] == x {
        assert ts[i] in ts;
      }
    }
  }

  /** AddTarget: the editor on a new target; a completed target is appended
      and the registry saved, which sorts it by id. */
  method AddTarget(config: ConfigRoot, lines: seq<string>, keys: seq<Key>)
    returns (step: Step, outcome: Answer<TargetConfig>, added: TargetConfig, linesLeft: seq<string>, keysLeft: seq<Key>)
    modifies config
    ensures fresh(added)
    ensures config.Exec == old(config.Exec)
    ensures var o := EditForm(DefaultFields, old(OtherIds(config.Targets, null)), true, lines);
      FieldsOf(added) == o.fields && linesLeft == o.rest && outcome == Outcome(o.status, added)
    ensures outcome.Answered? ==> config.Targets == SortById(old(config.Targets) + [added]) && (step, keysLeft) == AnyKey(keys)
    ensures outcome.Cancelled? ==> config.Targets == old(config.Targets) && step == Back && keysLeft == keys
    ensures outcome.Unanswered? ==> config.Targets == old(config.Targets) && step == Blocked && keysLeft == keys
    ensures old(DistinctIds(config.Targets)) ==> DistinctIds(config.Targets)
    ensures |keysLeft| <= |keys|
  {
    outcome, added, linesLeft := EditTargetConfig(null, config.Targets, true, lines);
    assert OtherIds(config.Targets, null) == old(OtherIds(config.Targets, null));
    assert DistinctIds(config.Targets) == old(DistinctIds(config.Targets));
    assert added !in config.Targets;
    step, keysLeft := Register(config, outcome, keys);
  }

  /** EditTargetConfig on a target of the registry: the ids of the registry
      stay distinct, and a completed edit leaves the target with an id no
      other target holds. */
  method EditInPlace(target: TargetConfig, ts: seq<TargetConfig>, lines: seq<string>)
    returns (result: Answer<TargetConfig>, rest: seq<string>)
    modifies target
    ensures var o := EditForm(old(FieldsOf(target)), old(OtherIds(ts, target)), false, lines);
      FieldsOf(target) == o.fields && rest == o.rest && result == Outcome(o.status, target)
    ensures old(DistinctIds(ts)) ==> DistinctIds(ts)
    ensures result.Answered? ==> forall s :: s in ts && s != target ==> s.id != target.id
  {
    ghost var ids := IdsOf(ts);
    if DistinctIds(ts) {
      DistinctRefs(ts);
    }
    var form;
    result, form, rest := EditTargetConfig(target, ts, false, lines);
    if old(DistinctIds(ts)) {
      EditKeepsDistinct(ts, ids, target);
    }
  }

  /** The part of EditTarget after the pick: edit the target in place and,
      on completion, move it to the end and save. */
  method EditPicked(config: ConfigRoot, target: TargetConfig, keys: seq<Key>, lines: seq<string>)
    returns (step: Step, keysLeft: seq<Key>, linesLeft: seq<string>)
    requires target in config.Targets
    modifies config, target
    ensures config.Exec == old(config.Exec)
    ensures var o := EditForm(old(FieldsOf(target)), old(OtherIds(config.Targets, target)), false, lines);
      FieldsOf(target) == o.fields && linesLeft == o.rest
      && (o.status == Completed ==>
            config.Targets == SortById(Without(old(config.Targets), target) + [target])
            && (step, keysLeft) == AnyKey(keys))
      && (o.status != Completed ==>
            config.Targets == old(config.Targets) && keysLeft == keys
            && step == (if o.status == Aborted then Back else Blocked))
    ensures old(DistinctIds(config.Targets)) ==> DistinctIds(config.Targets)
    ensures |keysLeft| <= |keys|
  {
    var result, r := EditInPlace(target, config.Targets, lines);
    linesLeft := r;
    match result {
      case Unanswered =>
        step, keysLeft := Blocked, keys;
      case Cancelled =>
        step, keysLeft := Back, keys;
      case Answered(t) =>
        step, keysLeft := Replace(config, target, keys);
    }
  }

  /** EditTarget: pick a target, run the editor on that very object, and on
      completion put it back at the end (removed by reference, appended) and
      save. The editor writes into the object as it goes, so a cancelled
      edit keeps what was written before the cancel. */
  method EditTarget(config: ConfigRoot, probe: Tcp.Probe, keys: seq<Key>, lines: seq<string>)
    returns (step: Step, picked: Answer<TargetConfig>, keysLeft: seq<Key>, linesLeft: seq<string>)
    modifies config, set t | t in config.Targets
    ensures config.Exec == old(config.Exec)
    ensures picked == Designated(old(config.Targets), Pick(|old(config.Targets)|, keys).0)
    ensures var after := Pick(|old(config.Targets)|, keys).1;
      !picked.Answered? ==>
        config.Targets == old(config.Targets) && linesLeft == lines && keysLeft == after
        && step == (if picked.Cancelled? then Back else Blocked)
    ensures var afterPick := Pick(|old(config.Targets)|, keys).1;
      picked.Answered? ==>
        var target := picked.value;
        var o := EditForm(old(FieldsOf(target)), old(OtherIds(config.Targets, target)), false, lines);
        FieldsOf(target) == o.fields && linesLeft == o.rest
        && (o.status == Completed ==>
              config.Targets == SortById(Without(old(config.Targets), target) + [target])
              && (step, keysLeft) == AnyKey(afterPick))
        && (o.status != Completed ==>
              config.Targets == old(config.Targets) && keysLeft == afterPick
              && step == (if o.status == Aborted then Back else Blocked))
    ensures forall t :: t in old(config.Targets) && (picked.Answered? ==> t != picked.value) ==> unchanged(t)
    ensures old(DistinctIds(config.Targets)) ==> DistinctIds(config.Targets)
    ensures |keysLeft| <= |keys|
  {
    var after;
    picked, after := SelectTarget(config, "\U{1B}[93m", false, probe, keys);
    match picked {
      case Unanswered =>
        return Blocked, picked, after, lines;
      case Cancelled =>
        return Back, picked, after, lines;
      case Answered(target) =>
        assert FieldsOf(target) == old(FieldsOf(target));
        assert OtherIds(config.Targets, target) == old(OtherIds(config.Targets, target));
        step, keysLeft, linesLeft := EditPicked(config, target, after, lines);
    }
  }

  /** DeleteTarget: pick a target, ask for confirmation, and on `y` remove
      that object from the registry and save. */
  method DeleteTarget(config: ConfigRoot, probe: Tcp.Probe, keys: seq<Key>, lines: seq<string>)
    returns (step: Step, picked: Answer<TargetConfig>, keysLeft: seq<Key>, linesLeft: seq<string>)
    modifies config
    ensures config.Exec == old(config.Exec)
    ensures picked == Designated(old(config.Targets), Pick(|old(config.Targets)|, keys).0)
    ensures var after := Pick(|old(config.Targets)|, keys).1;
      !picked.Answered? ==>
        config.Targets == old(config.Targets) && linesLeft == lines && keysLeft == after
        && step == (if picked.Cancelled? then Back else Blocked)
    ensures var afterPick := Pick(|old(config.Targets)|, keys).1;
      picked.Answered? ==>
        var (yes, r) := Confirm(lines);
        linesLeft == r
        && (yes ==> config.Targets == SortById(Without(old(config.Targets), picked.value)) && (step, keysLeft) == AnyKey(afterPick))
        && (!yes ==> config.Targets == old(config.Targets) && step == Back && keysLeft == afterPick)
    ensures old(DistinctIds(config.Targets)) ==> DistinctIds(config.Targets)
    ensures |keysLeft| <= |keys|
  {
    var after;
    picked, after := SelectTarget(config, "\U{1B}[95m", false, probe, keys);
    match picked {
      case Unanswered =>
        return Blocked, picked, after, lines;
      case Cancelled =>
        return Back, picked, after, lines;
      case Answered(target) =>
        var c := Confirm(lines);
        if !c.0 {
          return Back, picked, after, c.1;
        }
        step, keysLeft := Remove(config, target, after);
        linesLeft := c.1;
    }
  }

  /** Stores the trimmed template the user typed. */
  method SetExec(config: ConfigRoot, s: string)
    modifies config
    ensures config.Exec == Trim(s) && config.Targets == old(config.Targets)
    ensures Trim(config.Exec) == config.Exec
    ensures old(DistinctIds(config.Targets)) ==> DistinctIds(config.Targets)
  {
    ghost var distinct := DistinctIds(config.Targets);
    config.Exec := Trim(s);
    assert distinct ==> DistinctIds(config.Targets);
    TrimIdempotent(s);
  }

  /** EditExec: ask for a new template (a blank answer is asked again) and
      store it trimmed, then save. */
  method EditExec(config: ConfigRoot, lines: seq<string>, keys: seq<Key>)
    returns (step: Step, linesLeft: seq<string>, keysLeft: seq<Key>)
    modifies config
    ensures var (a, r) := StringReply(lines, true);
      linesLeft == r
      && match a
         case Answered(input) =>
           config.Exec == Trim(input) && config.Targets == SortById(old(config.Targets))
           && (step, keysLeft) == AnyKey(keys)
         case Cancelled =>
           config.Exec == old(config.Exec) && config.Targets == old(config.Targets)
           && step == Back && keysLeft == keys
         case Unanswered =>
           config.Exec == old(config.Exec) && config.Targets == old(config.Targets)
           && step == Blocked && keysLeft == keys
    ensures config.Exec != old(config.Exec) ==> !IsBlank(config.Exec) && Trim(config.Exec) == config.Exec
    ensures old(DistinctIds(config.Targets)) ==> DistinctIds(config.Targets)
    ensures |keysLeft| <= |keys|
  {
    var input, r := AskString(lines, true);
    linesLeft := r;
    match input {
      case Unanswered =>
        step, keysLeft := Blocked, keys;
      case Cancelled =>
        step, keysLeft := Back, keys;
      case Answered(s) =>
        SetExec(config, s);
        step, keysLeft := SaveAndWait(config, keys);
    }
  }

  // ---------------------------------------------------------------------------
  // ShowMenu
  // ---------------------------------------------------------------------------

  /** The seven rows of the main menu. */
  datatype Choice = ConnectChoice | ListChoice | AddChoice | EditChoice | DeleteChoice | ExecChoice | ExitChoice

  /** What ShowMenu runs for a menu result: rows 0 to 6 in order, Escape
      (-1) the exit confirmation. The results 7 and 8, which the shortcuts
      8 and 9 give, run nothing. */
  function MainChoice(selected: int): (c: Option<Choice>)
    ensures c.Some? <==> -1 <= selected <= 6
    ensures c == Some(ExitChoice) <==> selected == -1 || selected == 6
    ensures 0 <= selected < 6 ==> c == Some([ConnectChoice, ListChoice, AddChoice, EditChoice, DeleteChoice, ExecChoice][selected])
  {
    if selected == -1 then Some(ExitChoice)
    else if selected == 0 then Some(ConnectChoice)
    else if selected == 1 then Some(ListChoice)
    else if selected == 2 then Some(AddChoice)
    else if selected == 3 then Some(EditChoice)
    else if selected == 4 then Some(DeleteChoice)
    else if selected == 5 then Some(ExecChoice)
    else if selected == 6 then Some(ExitChoice)
    else None
  }

  /** On the main menu, shortcut k runs row k for k up to 7, while 8 and 9
      run nothing at all. */
  lemma MainShortcuts(d: int, tail: seq<Key>)
    requires 1 <= d <= 9
    ensures Menu(7, true, 0, [Digit(d)] + tail) == (Some(d - 1), tail)
    ensures MainChoice(d - 1).None? <==> d >= 8
  {
    assert ([Digit(d)] + tail)[0] == Digit(d) && ([Digit(d)] + tail)[1..] == tail;
  }

  /** How a session ends: exit confirmed; ShowMenu returned without running
      anything, which ends Main; the input ran out; or an exception. */
  datatype SessionEnd = Exited | Returned | InputEnded | Failed

  /** One turn of ShowMenu after the menu has answered: the action the
      choice names, or the exit confirmation. Every action keeps the ids
      distinct and the template non-blank, brings in no target that is
      neither old nor new, and launches only well-formed commands. */
  method Dispatch(config: ConfigRoot, choice: Choice, probe: Tcp.Probe, keys: seq<Key>, lines: seq<string>)
    returns (exited: bool, step: Step, launched: Option<(string, string)>, keysLeft: seq<Key>, linesLeft: seq<string>)
    modifies config, set t | t in config.Targets
    ensures exited ==> choice == ExitChoice && Confirm(lines).0
    ensures old(DistinctIds(config.Targets)) ==> DistinctIds(config.Targets)
    ensures !IsBlank(old(config.Exec)) ==> !IsBlank(config.Exec)
    ensures forall t :: t in config.Targets ==> t in old(config.Targets) || fresh(t)
    ensures launched.Some? ==> WellFormed(launched.value)
    ensures |keysLeft| <= |keys|
  {
    exited, launched := false, None;
    match choice {
      case ExitChoice =>
        var c := Confirm(lines);
        exited, step, keysLeft, linesLeft := c.0, Back, keys, c.1;
      case ConnectChoice =>
        ghost var d := DistinctIds(config.Targets);
        step, launched, keysLeft := Connect(config, probe, keys);
        assert d ==> DistinctIds(config.Targets);
        linesLeft := lines;
      case ListChoice =>
        step, keysLeft := ListTargets(config, keys);
        linesLeft := lines;
      case AddChoice =>
        var outcome, added;
        step, outcome, added, linesLeft, keysLeft := AddTarget(config, lines, keys);
      case EditChoice =>
        var picked;
        step, picked, keysLeft, linesLeft := EditTarget(config, probe, keys, lines);
      case DeleteChoice =>
        var picked;
        step, picked, keysLeft, linesLeft := DeleteTarget(config, probe, keys, lines);
      case ExecChoice =>
        step, linesLeft, keysLeft := EditExec(config, lines, keys);
    }
  }

  /** Main after loading: ShowMenu, each action and ShowMenu again. Each
      turn reads at least one key, so the loop ends. Returns how it ended
      and the commands it started. */
  method Run(config: ConfigRoot, probe: Tcp.Probe, keys: seq<Key>, lines: seq<string>)
    returns (end: SessionEnd, launches: seq<(string, string)>)
    modifies config, set t | t in config.Targets
    ensures old(DistinctIds(config.Targets)) ==> DistinctIds(config.Targets)
    ensures !IsBlank(old(config.Exec)) ==> !IsBlank(config.Exec)
    ensures forall t :: t in config.Targets ==> t in old(config.Targets) || fresh(t)
    ensures forall k :: 0 <= k < |launches| ==> WellFormed(launches[k])
  {
    var ks, ls := keys, lines;
    launches := [];
    while true
      invariant old(DistinctIds(config.Targets)) ==> DistinctIds(config.Targets)
      invariant !IsBlank(old(config.Exec)) ==> !IsBlank(config.Exec)
      invariant forall t :: t in config.Targets ==> t in old(config.Targets) || fresh(t)
      invariant forall k :: 0 <= k < |launches| ==> WellFormed(launches[k])
      decreases |ks|
    {
      var selected, ks1 := SelectableMenu(7, true, ks);
      if selected.None? {
        return InputEnded, launches;
      }
      var choice := MainChoice(selected.value);
      if choice.None? {
        return Returned, launches;
      }
      var exited, step, launched;
      exited, step, launched, ks, ls := Dispatch(config, choice.value, probe, ks1, ls);
      if launched.Some? {
        launches := launches + [launched.value];
      }
      if exited {
        return Exited, launches;
      }
      if step == Blocked {
        return InputEnded, launches;
      }
      if step == Crashed {
        return Failed, launches;
      }
    }
  }
}
