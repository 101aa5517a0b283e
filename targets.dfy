/**
 * Action.Config: choosing a target from the menu, the field-by-field target
 * editor, and the id sort that precedes every serialisation. The JSON text
 * itself, the file and the console rendering are outside the model.
 */
module TargetActions {
  import opened Strings
  import opened Config
  import opened TargetOrder
  import opened Ask
  import opened WriteLine
  import Tcp

  // ---------------------------------------------------------------------------
  // SelectTarget: the menu rows
  // ---------------------------------------------------------------------------

  /** The escape sequence that colours a probed row. */
  function StatusColor(s: Tcp.TCPState): (c: string)
    ensures c != [] <==> s == Tcp.Offline || s == Tcp.Error
  {
    match s
    case Offline => "\U{1B}[91m"
    case Error => "\U{1B}[31m"
    case Online => ""
    case None => ""
  }

  /** One menu row: the caller's prefix, the colour of the probe result, the
      target's id, name, user, host and port, and the probe result when the
      target was probed. */
  function Label(toptext: string, id: int, name: string, username: string, ip: string, port: int,
                 probed: bool, status: Tcp.TCPState): string
  {
    toptext + (if probed then StatusColor(status) else "") + "$ "
      + "ID: " + FormatInt(id) + ", Name: " + name + ", " + username + " @" + ip + " :" + FormatInt(port)
      + (if probed then ", " + Tcp.StateName(status) else "")
  }

  /** A target is probed only when the caller asks for scanning and the
      target itself opts in. */
  predicate Probed(scanOnline: bool, t: TargetConfig)
    reads t
  {
    scanOnline && t.ScanOnline
  }

  /** The row for target t. */
  function Item(toptext: string, scanOnline: bool, probe: Tcp.Probe, t: TargetConfig): string
    reads t
  {
    var probed := Probed(scanOnline, t);
    Label(toptext, t.id, t.Name, t.Username, t.IP, t.Port, probed,
          if probed then Tcp.Classify(probe(t.IP, t.Port)) else Tcp.None)
  }

  /** A row ends in a digit (the port) exactly when its target was not
      probed; a probed row ends with the probe result's name. */
  lemma LabelEndsWithStatusIffProbed(toptext: string, id: int, name: string, username: string, ip: string,
                                     port: int, probed: bool, status: Tcp.TCPState)
    ensures var l := Label(toptext, id, name, username, ip, port, probed, status);
      && |l| > 0
      && (IsDigit(l[|l| - 1]) <==> !probed)
      && (probed ==> l[|l| - |Tcp.StateName(status)|..] == Tcp.StateName(status))
  {
    var l := Label(toptext, id, name, username, ip, port, probed, status);
    var p := FormatInt(port);
    var head := toptext + (if probed then StatusColor(status) else "") + "$ "
      + "ID: " + FormatInt(id) + ", Name: " + name + ", " + username + " @" + ip + " :";
    if probed {
      var sn := Tcp.StateName(status);
      assert l == (head + p + ", ") + sn;
      assert sn[|sn| - 1] == 'e' || sn[|sn| - 1] == 'r';
      assert l[|l| - 1] == sn[|sn| - 1];
    } else {
      assert l == head + p;
      assert l[|l| - 1] == p[|p| - 1];
    }
  }

  /** The foreach loop that builds the rows, probing each target that
      opts in, one after the other (the probe happens inside Item). */
  method BuildItems(targets: seq<TargetConfig>, toptext: string, scanOnline: bool, probe: Tcp.Probe)
    returns (items: seq<string>)
    ensures |items| == |targets|
    ensures forall i :: 0 <= i < |targets| ==> items[i] == Item(toptext, scanOnline, probe, targets[i])
  {
    items := [];
    for k := 0 to |targets|
      invariant |items| == k
      invariant forall i :: 0 <= i < k ==> items[i] == Item(toptext, scanOnline, probe, targets[i])
    {
      items := items + [Item(toptext, scanOnline, probe, targets[k])];
    }
  }

  // ---------------------------------------------------------------------------
  // SelectTarget: the choice
  // ---------------------------------------------------------------------------

  /** What SelectTarget settles on among n targets: an index, a cancellation
      (Escape, or the "no targets" notice dismissed with any key), or no
      answer when the keys run out. A shortcut past the last target shows
      the menu again. */
  function Pick(n: int, keys: seq<Key>): (r: (Answer<int>, seq<Key>))
    requires n >= 0
    ensures r.0.Answered? ==> 0 <= r.0.value < n
    ensures |r.1| <= |keys| && r.1 == keys[|keys| - |r.1|..]
    ensures r.0.Unanswered? ==> r.1 == []
    ensures n == 0 ==> r == if keys == [] then (Unanswered, []) else (Cancelled, keys[1..])
    decreases |keys|
  {
    if n == 0 then
      (if keys == [] then (Unanswered, []) else (Cancelled, keys[1..]))
    else
      var (sel, rest) := Menu(n, true, 0, keys);
      if sel.None? then (Unanswered, rest)
      else if sel.value + 1 > n then Pick(n, rest)
      else if sel.value == -1 then (Cancelled, rest)
      else (Answered(sel.value), rest)
  }

  /** Every target among the first nine can be reached by its digit. */
  lemma PickByDigit(n: int, d: int, tail: seq<Key>)
    requires 1 <= d <= 9 && d <= n
    ensures Pick(n, [Digit(d)] + tail) == (Answered(d - 1), tail)
  {
    assert ([Digit(d)] + tail)[0] == Digit(d) && ([Digit(d)] + tail)[1..] == tail;
  }

  /** Escape in a non-empty target menu cancels the selection. */
  lemma PickEscape(n: int, tail: seq<Key>)
    requires n >= 1
    ensures Pick(n, [Escape] + tail) == (Cancelled, tail)
  {
    EscapeCancels(n, true, 0, tail);
  }

  /** A shortcut digit beyond the number of targets is ignored: the menu is
      shown again and the following keys decide. */
  lemma PickIgnoresLargeDigit(n: int, d: int, tail: seq<Key>)
    requires 1 <= n < d <= 9
    ensures Pick(n, [Digit(d)] + tail) == Pick(n, tail)
  {
    assert ([Digit(d)] + tail)[0] == Digit(d) && ([Digit(d)] + tail)[1..] == tail;
  }

  /** The target an answered index designates. */
  function Designated(ts: seq<TargetConfig>, a: Answer<int>): (r: Answer<TargetConfig>)
    requires a.Answered? ==> 0 <= a.value < |ts|
    ensures r.Answered? <==> a.Answered?
    ensures r.Cancelled? <==> a.Cancelled?
    ensures r.Answered? ==> r.value == ts[a.value] && r.value in ts
  {
    match a
    case Answered(i) => Answered(ts[i])
    case Cancelled => Cancelled
    case Unanswered => Unanswered
  }

  /** SelectTarget(config, infoMsg, toptext, scanOnline). The recursive call
      after an out-of-range shortcut is the loop here; the rows are rebuilt,
      and the targets probed again, each time. */
  method SelectTarget(config: ConfigRoot, toptext: string, scanOnline: bool, probe: Tcp.Probe, keys: seq<Key>)
    returns (picked: Answer<TargetConfig>, rest: seq<Key>)
    ensures picked == Designated(config.Targets, Pick(|config.Targets|, keys).0)
    ensures rest == Pick(|config.Targets|, keys).1
    ensures picked.Answered? ==> picked.value in config.Targets
  {
    var n := |config.Targets|;
    if n == 0 {
      if keys == [] {
        return Unanswered, [];
      }
      return Cancelled, keys[1..];
    }
    var remaining := keys;
    while true
      invariant Pick(n, remaining) == Pick(n, keys)
      decreases |remaining|
    {
      var items := BuildItems(config.Targets, toptext, scanOnline, probe);
      var selected, r := SelectableMenu(|items|, true, remaining);
      if selected.None? {
        return Unanswered, r;
      }
      if selected.value + 1 > n {
        remaining := r;
        continue;
      }
      if selected.value == -1 {
        return Cancelled, r;
      }
      return Answered(config.Targets[selected.value]), r;
    }
  }

  // ---------------------------------------------------------------------------
  // EditTargetConfig: the specification
  // ---------------------------------------------------------------------------

  /** The editable fields of a target, as values. */
  datatype Fields = Fields(id: int, name: string, ip: string, port: int, username: string, scanOnline: bool)

  function FieldsOf(t: TargetConfig): Fields
    reads t
  {
    Fields(t.id, t.Name, t.IP, t.Port, t.Username, t.ScanOnline)
  }

  /** The fields of `new TargetConfig()`. */
  const DefaultFields: Fields := Fields(0, "", "", DefaultPort, "", false)

  /** The id prompt: asked again while the answer is an id some other
      target holds. When that answer came from the end of input it would be
      asked forever, which is no answer. */
  function IdPrompt(taken: set<int>, defaultId: int, lines: seq<string>): (r: (Answer<int>, seq<string>))
    ensures r.0.Answered? ==> r.0.value !in taken
    ensures |r.1| <= |lines| && r.1 == lines[|lines| - |r.1|..]
    decreases |lines|
  {
    var (a, rest) := IntReply(lines, defaultId);
    if a.Answered? && a.value in taken then
      if |rest| < |lines| then IdPrompt(taken, defaultId, rest) else (Unanswered, rest)
    else (a, rest)
  }

  /** How the editor ended: every prompt answered, a prompt cancelled, or
      the input exhausted while a prompt was still waiting. */
  datatype FormStatus = Completed | Aborted | Stalled

  datatype FormResult = FormResult(status: FormStatus, fields: Fields, rest: seq<string>)

  function Halt<T>(a: Answer<T>): (s: FormStatus)
    requires !a.Answered?
    ensures s == Aborted <==> a.Cancelled?
  {
    if a.Cancelled? then Aborted else Stalled
  }

  /** The editor on fields `cur`, with the ids of the other targets `taken`.
      Each prompt's answer is written as soon as it is given; an empty answer
      keeps the name, host or user; a cancelled or unanswered prompt stops the
      editor and keeps what was written before it. */
  function EditForm(cur: Fields, taken: set<int>, isNew: bool, lines: seq<string>): (r: FormResult)
    ensures r.fields.id == cur.id || r.fields.id !in taken
    ensures r.status == Completed ==> r.fields.id !in taken
    ensures isNew && r.status == Completed ==> !IsBlank(r.fields.name) && !IsBlank(r.fields.ip) && !IsBlank(r.fields.username)
    ensures |r.rest| <= |lines|
  {
    var (idA, rest) := IdPrompt(taken, if isNew then NoDefault else cur.id, lines);
    if !idA.Answered? then FormResult(Halt(idA), cur, rest)
    else FromField(NameField, cur.(id := idA.value), isNew, rest)
  }

  /** The prompts after the id, in the order they are asked. */
  datatype Field = NameField | IpField | PortField | UserField | ScanField

  /** How many prompts follow. */
  function Later(p: Field): nat {
    match p
    case NameField => 4
    case IpField => 3
    case PortField => 2
    case UserField => 1
    case ScanField => 0
  }

  /** The editor from prompt p on, with the fields written so far `f`. An
      empty name, host or user keeps the current value; the port and the
      scan flag are always written. Each prompt writes only its own field. */
  function FromField(p: Field, f: Fields, isNew: bool, lines: seq<string>): (r: FormResult)
    ensures r.fields.id == f.id
    ensures Later(p) < 4 ==> r.fields.name == f.name
    ensures Later(p) < 3 ==> r.fields.ip == f.ip
    ensures Later(p) < 2 ==> r.fields.port == f.port
    ensures Later(p) < 1 ==> r.fields.username == f.username
    ensures isNew && r.status == Completed && Later(p) >= 4 ==> !IsBlank(r.fields.name)
    ensures isNew && r.status == Completed && Later(p) >= 3 ==> !IsBlank(r.fields.ip)
    ensures isNew && r.status == Completed && Later(p) >= 1 ==> !IsBlank(r.fields.username)
    ensures |r.rest| <= |lines|
    decreases Later(p)
  {
    match p
    case NameField =>
      var (a, rest) := StringReply(lines, isNew);
      if !a.Answered? then FormResult(Halt(a), f, rest)
      else FromField(IpField, if a.value != "" then f.(name := a.value) else f, isNew, rest)
    case IpField =>
      var (a, rest) := StringReply(lines, isNew);
      if !a.Answered? then FormResult(Halt(a), f, rest)
      else FromField(PortField, if a.value != "" then f.(ip := a.value) else f, isNew, rest)
    case PortField =>
      var (a, rest) := IntReply(lines, if isNew then DefaultPort else f.port);
      if !a.Answered? then FormResult(Halt(a), f, rest)
      else FromField(UserField, f.(port := a.value), isNew, rest)
    case UserField =>
      var (a, rest) := StringReply(lines, isNew);
      if !a.Answered? then FormResult(Halt(a), f, rest)
      else FromField(ScanField, if a.value != "" then f.(username := a.value) else f, isNew, rest)
    case ScanField =>
      var (a, rest) := BoolReply(lines, if isNew then Option.None else Some(f.scanOnline));
      if !a.Answered? then FormResult(Halt(a), f, rest)
      else FormResult(Completed, f.(scanOnline := a.value), rest)
  }

  // ---------------------------------------------------------------------------
  // EditTargetConfig: the method
  // ---------------------------------------------------------------------------

  /** The id loop: asks until the answer is not another target's id. */
  method AskUniqueId(allTargets: seq<TargetConfig>, self: TargetConfig, defaultId: int, lines: seq<string>)
    returns (answer: Answer<int>, rest: seq<string>)
    ensures (answer, rest) == IdPrompt(OtherIds(allTargets, self), defaultId, lines)
    ensures answer.Answered? ==> forall t :: t in allTargets && t != self ==> t.id != answer.value
  {
    var taken := OtherIds(allTargets, self);
    var remaining := lines;
    while true
      invariant IdPrompt(taken, defaultId, remaining) == IdPrompt(taken, defaultId, lines)
      decreases |remaining|
    {
      var a, r := AskInt(remaining, defaultId);
      if a.Answered? && a.value in taken {
        if |r| < |remaining| {
          remaining := r;
          continue;
        }
        return Unanswered, r;
      }
      return a, r;
    }
  }

  /** The id prompt: an id no other target holds is written into the
      target. */
  method PromptId(t: TargetConfig, allTargets: seq<TargetConfig>, isNew: bool, lines: seq<string>)
    returns (answer: Answer<int>, rest: seq<string>)
    modifies t
    ensures (answer, rest) == IdPrompt(old(OtherIds(allTargets, t)), if isNew then NoDefault else old(t.id), lines)
    ensures FieldsOf(t) == if answer.Answered? then old(FieldsOf(t)).(id := answer.value) else old(FieldsOf(t))
    ensures EditForm(old(FieldsOf(t)), old(OtherIds(allTargets, t)), isNew, lines)
         == if answer.Answered? then FromField(NameField, FieldsOf(t), isNew, rest) else FormResult(Halt(answer), FieldsOf(t), rest)
  {
    answer, rest := AskUniqueId(allTargets, t, if isNew then NoDefault else t.id, lines);
    if answer.Answered? {
      t.id := answer.value;
    }
  }

  /** The name prompt: a non-empty answer is written into the target. */
  method PromptName(t: TargetConfig, isNew: bool, lines: seq<string>) returns (answer: Answer<string>, rest: seq<string>)
    modifies t
    ensures (answer, rest) == StringReply(lines, isNew)
    ensures FieldsOf(t) == if answer.Answered? && answer.value != "" then old(FieldsOf(t)).(name := answer.value) else old(FieldsOf(t))
    ensures FromField(NameField, old(FieldsOf(t)), isNew, lines)
         == if answer.Answered? then FromField(IpField, FieldsOf(t), isNew, rest) else FormResult(Halt(answer), FieldsOf(t), rest)
  {
    answer, rest := AskString(lines, isNew);
    if answer.Answered? && answer.value != "" {
      t.Name := answer.value;
    }
  }

  /** The host prompt: a non-empty answer is written into the target. */
  method PromptIp(t: TargetConfig, isNew: bool, lines: seq<string>) returns (answer: Answer<string>, rest: seq<string>)
    modifies t
    ensures (answer, rest) == StringReply(lines, isNew)
    ensures FieldsOf(t) == if answer.Answered? && answer.value != "" then old(FieldsOf(t)).(ip := answer.value) else old(FieldsOf(t))
    ensures FromField(IpField, old(FieldsOf(t)), isNew, lines)
         == if answer.Answered? then FromField(PortField, FieldsOf(t), isNew, rest) else FormResult(Halt(answer), FieldsOf(t), rest)
  {
    answer, rest := AskString(lines, isNew);
    if answer.Answered? && answer.value != "" {
      t.IP := answer.value;
    }
  }

  /** The port prompt: the answer, or the default, is written. */
  method PromptPort(t: TargetConfig, isNew: bool, lines: seq<string>) returns (answer: Answer<int>, rest: seq<string>)
    modifies t
    ensures (answer, rest) == IntReply(lines, if isNew then DefaultPort else old(t.Port))
    ensures FieldsOf(t) == if answer.Answered? then old(FieldsOf(t)).(port := answer.value) else old(FieldsOf(t))
    ensures FromField(PortField, old(FieldsOf(t)), isNew, lines)
         == if answer.Answered? then FromField(UserField, FieldsOf(t), isNew, rest) else FormResult(Halt(answer), FieldsOf(t), rest)
  {
    answer, rest := AskInt(lines, if isNew then DefaultPort else t.Port);
    if answer.Answered? {
      t.Port := answer.value;
    }
  }

  /** The user prompt: a non-empty answer is written into the target. */
  method PromptUser(t: TargetConfig, isNew: bool, lines: seq<string>) returns (answer: Answer<string>, rest: seq<string>)
    modifies t
    ensures (answer, rest) == StringReply(lines, isNew)
    ensures FieldsOf(t) == if answer.Answered? && answer.value != "" then old(FieldsOf(t)).(username := answer.value) else old(FieldsOf(t))
    ensures FromField(UserField, old(FieldsOf(t)), isNew, lines)
         == if answer.Answered? then FromField(ScanField, FieldsOf(t), isNew, rest) else FormResult(Halt(answer), FieldsOf(t), rest)
  {
    answer, rest := AskString(lines, isNew);
    if answer.Answered? && answer.value != "" {
      t.Username := answer.value;
    }
  }

  /** The scan prompt: the answer, or the current setting, is written. */
  method PromptScan(t: TargetConfig, isNew: bool, lines: seq<string>) returns (answer: Answer<bool>, rest: seq<string>)
    modifies t
    ensures (answer, rest) == BoolReply(lines, if isNew then Option.None else Some(old(t.ScanOnline)))
    ensures FieldsOf(t) == if answer.Answered? then old(FieldsOf(t)).(scanOnline := answer.value) else old(FieldsOf(t))
    ensures FromField(ScanField, old(FieldsOf(t)), isNew, lines)
         == if answer.Answered? then FormResult(Completed, FieldsOf(t), rest) else FormResult(Halt(answer), FieldsOf(t), rest)
  {
    answer, rest := AskBool(lines, if isNew then Option.None else Some(t.ScanOnline));
    if answer.Answered? {
      t.ScanOnline := answer.value;
    }
  }

  /** The status EditTargetConfig reports: the edited target, or null. */
  function Outcome(status: FormStatus, form: TargetConfig): (r: Answer<TargetConfig>)
    ensures r.Answered? <==> status == Completed
    ensures r.Cancelled? <==> status == Aborted
    ensures r.Answered? ==> r.value == form
  {
    match status
    case Completed => Answered(form)
    case Aborted => Cancelled
    case Stalled => Unanswered
  }

  /** EditTargetConfig(target, allTargets, isNew): edits `target` in place,
      or a new target when it is null, prompt by prompt, and returns the
      edited object, or null as soon as a prompt is cancelled; what was
      written before that prompt stays written. */
  method EditTargetConfig(target: TargetConfig?, allTargets: seq<TargetConfig>, isNew: bool, lines: seq<string>)
    returns (result: Answer<TargetConfig>, form: TargetConfig, rest: seq<string>)
    modifies if target == null then {} else {target}
    ensures target != null ==> form == target
    ensures target == null ==> fresh(form)
    ensures var o := EditForm(if target == null then DefaultFields else old(FieldsOf(target)),
                              old(OtherIds(allTargets, target)), isNew, lines);
      FieldsOf(form) == o.fields && rest == o.rest && result == Outcome(o.status, form)
    ensures result.Answered? ==> forall s :: s in allTargets && s != form ==> s.id != form.id
    ensures target != null ==> form.id == old(target.id) || forall s :: s in allTargets && s != form ==> s.id != form.id
  {
    var t: TargetConfig;
    if target == null {
      t := new TargetConfig();
    } else {
      t := target;
    }
    form := t;
    assert OtherIds(allTargets, t) == old(OtherIds(allTargets, target));

    var idA, r1 := PromptId(t, allTargets, isNew, lines);
    if !idA.Answered? {
      return Outcome(Halt(idA), t), t, r1;
    }

    var nameA, r2 := PromptName(t, isNew, r1);
    if !nameA.Answered? {
      return Outcome(Halt(nameA), t), t, r2;
    }
    var ipA, r3 := PromptIp(t, isNew, r2);
    if !ipA.Answered? {
      return Outcome(Halt(ipA), t), t, r3;
    }
    var portA, r4 := PromptPort(t, isNew, r3);
    if !portA.Answered? {
      return Outcome(Halt(portA), t), t, r4;
    }
    var userA, r5 := PromptUser(t, isNew, r4);
    if !userA.Answered? {
      return Outcome(Halt(userA), t), t, r5;
    }
    var scanA, r6 := PromptScan(t, isNew, r5);
    if !scanA.Answered? {
      return Outcome(Halt(scanA), t), t, r6;
    }
    return Answered(t), t, r6;
  }

  // ---------------------------------------------------------------------------
  // Properties of the editor
  // ---------------------------------------------------------------------------

  /** n empty lines: Enter pressed at n prompts. */
  function Blanks(n: nat): (r: seq<string>)
    ensures |r| == n && forall i :: 0 <= i < n ==> r[i] == ""
  {
    seq(n, _ => "")
  }

  /** The prompt after p. */
  function After(p: Field): Field
    requires p != ScanField
  {
    match p
    case NameField => IpField
    case IpField => PortField
    case PortField => UserField
    case UserField => ScanField
  }

  /** Enter at one prompt of an existing target's editor keeps that field
      and moves on to the next prompt. */
  lemma EnterStep(p: Field, f: Fields, lines: seq<string>)
    requires lines != [] && lines[0] == "" && (p == PortField ==> f.port != NoDefault)
    ensures p != ScanField ==> FromField(p, f, false, lines) == FromField(After(p), f, false, lines[1..])
    ensures p == ScanField ==> FromField(p, f, false, lines) == FormResult(Completed, f, lines[1..])
  {
    EnterTakesDefault(lines, f.port, f.scanOnline);
    match p
    case NameField =>
    case IpField =>
    case PortField =>
      assert f.(port := f.port) == f;
    case UserField =>
    case ScanField =>
      assert f.(scanOnline := f.scanOnline) == f;
  }

  /** Pressing Enter at every remaining prompt of an existing target's
      editor keeps every field, provided the port is not the -1 that Ask.Int
      reads as "no default". */
  lemma {:induction false} BlankAnswersKeep(p: Field, f: Fields, tail: seq<string>)
    requires f.port != NoDefault
    ensures FromField(p, f, false, Blanks(Later(p) + 1) + tail) == FormResult(Completed, f, tail)
    decreases Later(p)
  {
    var lines := Blanks(Later(p) + 1) + tail;
    assert lines[0] == "" && lines[1..] == Blanks(Later(p)) + tail;
    EnterStep(p, f, lines);
    if p == ScanField {
      assert lines[1..] == tail;
    } else {
      assert Later(After(p)) + 1 == Later(p);
      BlankAnswersKeep(After(p), f, tail);
    }
  }

  /** Editing an existing target and pressing Enter at all six prompts
      keeps every field, provided its id is not another target's and neither
      its id nor its port is the -1 that Ask.Int reads as "no default". */
  lemma BlankEditKeepsFields(cur: Fields, taken: set<int>, tail: seq<string>)
    requires cur.id !in taken && cur.id != NoDefault && cur.port != NoDefault
    ensures EditForm(cur, taken, false, Blanks(6) + tail) == FormResult(Completed, cur, tail)
  {
    var lines := Blanks(6) + tail;
    assert lines[0] == "" && lines[1..] == Blanks(5) + tail;
    EnterTakesDefault(lines, cur.id, false);
    assert IntReply(lines, cur.id) == (Answered(cur.id), lines[1..]);
    assert IdPrompt(taken, cur.id, lines) == (Answered(cur.id), lines[1..]);
    assert cur.(id := cur.id) == cur;
    assert EditForm(cur, taken, false, lines) == FromField(NameField, cur, false, lines[1..]);
    BlankAnswersKeep(NameField, cur, tail);
  }

  /** Cancelling after a new id was accepted leaves that id written: the
      editor does not roll back. */
  lemma CancelAfterIdKeepsNewId(cur: Fields, taken: set<int>, isNew: bool, n: int, tail: seq<string>)
    requires IsInt32(n) && n !in taken
    ensures EditForm(cur, taken, isNew, [FormatInt(n), CancelWord] + tail)
         == FormResult(Aborted, cur.(id := n), tail)
  {
    var lines := [FormatInt(n), CancelWord] + tail;
    var rest := [CancelWord] + tail;
    var d := if isNew then NoDefault else cur.id;
    assert lines == [FormatInt(n)] + rest;
    AskIntReadsNumber(n, d, rest);
    assert IntReply(lines, d) == (Answered(n), rest);
    assert IdPrompt(taken, d, lines) == (Answered(n), rest);
    assert EditForm(cur, taken, isNew, lines) == FromField(NameField, cur.(id := n), isNew, rest);
    CancelWordAnyCase(CancelWord);
    CancelWins(CancelWord, tail, isNew, 0, Option.None);
    assert StringReply(rest, isNew) == (Cancelled, tail);
  }

  /** `!cancel` at the id prompt ends the editor with nothing written. */
  lemma CancelAtId(cur: Fields, taken: set<int>, isNew: bool, line: string, tail: seq<string>)
    requires IsCancel(line)
    ensures EditForm(cur, taken, isNew, [line] + tail) == FormResult(Aborted, cur, tail)
  {
    var d := if isNew then NoDefault else cur.id;
    CancelWordAnyCase(line);
    CancelWins(line, tail, isNew, d, Option.None);
    assert IdPrompt(taken, d, [line] + tail) == (Cancelled, tail);
  }

  /** `!cancel` at the name, host, port, user or scan prompt ends the editor,
      keeping what the earlier prompts wrote. */
  lemma CancelStops(p: Field, f: Fields, isNew: bool, line: string, tail: seq<string>)
    requires IsCancel(line)
    ensures FromField(p, f, isNew, [line] + tail) == FormResult(Aborted, f, tail)
  {
    CancelWordAnyCase(line);
    CancelWins(line, tail, isNew, if isNew then DefaultPort else f.port, if isNew then Option.None else Some(f.scanOnline));
  }

  // ---------------------------------------------------------------------------
  // GetJsonFromConfig: the sort
  // ---------------------------------------------------------------------------

  /** `config.Targets = [.. config.Targets.OrderBy(t => t.id)]`. */
  method SortTargets(config: ConfigRoot)
    modifies config
    ensures config.Targets == SortById(old(config.Targets))
    ensures config.Exec == old(config.Exec)
  {
    config.Targets := SortById(config.Targets);
  }
}
