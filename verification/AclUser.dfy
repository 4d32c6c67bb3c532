/** ACL users: the rules of a user beyond those of its root selector. */
module AclUser {
  import opened Acl
  import opened AclText
  import opened Wrappers

  /** What the rules need from outside: the password digest and the pub/sub default. */
  datatype Env = Env(sha256: string -> string, isSha256: string -> bool, pubsubDefault: bool, pubsubAllChannels: bool)

  datatype UserValue = UserValue(
    enabled: bool, disabled: bool, noPass: bool, passwords: set<string>, selectors: seq<Selector>)

  datatype Outcome = Outcome(user: UserValue, ok: bool)

  function NewUser(env: Env): UserValue {
    UserValue(false, true, false, {}, [Fresh(true, env.pubsubDefault)])
  }

  /** The position of the root selector, or the number of selectors if there is none. */
  function RootIndex(ss: seq<Selector>): (i: nat)
    ensures i <= |ss| && (i < |ss| ==> ss[i].root)
  {
    if ss == [] || ss[0].root then 0 else 1 + RootIndex(ss[1..])
  }

  function AddOrRemovePassword(env: Env, u: UserValue, op: string, add: bool): Outcome
    requires op != ""
  {
    var plain := op[0] in {'>', '<'};
    if !plain && !env.isSha256(op[1..]) then Outcome(u, false)
    else
      var p := if plain then env.sha256(op[1..]) else op[1..];
      if add then Outcome(u.(passwords := u.passwords + {p}, noPass := false), true)
      else Outcome(u.(passwords := u.passwords - {p}), true)
  }

  /** A further selector made from a parenthesized list of rules. */
  function AddSelector(env: Env, t: Table, u: UserValue, rules: seq<string>): Outcome {
    var s := ApplyAll(t, Fresh(false, env.pubsubDefault), rules);
    if s.None? then Outcome(u, false) else Outcome(u.(selectors := u.selectors + [s.value]), true)
  }

  /** A rule of the root selector. */
  function SetRoot(t: Table, u: UserValue, op: string): Outcome {
    var i := RootIndex(u.selectors);
    if i == |u.selectors| then Outcome(u, false)
    else
      var s := Apply(t, u.selectors[i], op);
      if s.None? then Outcome(u, false) else Outcome(u.(selectors := u.selectors[i := s.value]), true)
  }

  /** One rule other than "reset". */
  function SetOne(env: Env, t: Table, u: UserValue, op: string): Outcome {
    if op == "" then Outcome(u, true)
    else if SameIgnoringCase(op, "on") then Outcome(u.(enabled := true, disabled := false), true)
    else if SameIgnoringCase(op, "off") then Outcome(u.(disabled := true, enabled := false), true)
    else if SameIgnoringCase(op, "nopass") then Outcome(u.(noPass := true, passwords := {}), true)
    else if SameIgnoringCase(op, "resetpass") then Outcome(u.(noPass := false, passwords := {}), true)
    else if op[0] in {'>', '#'} then AddOrRemovePassword(env, u, op, true)
    else if op[0] in {'<', '!'} then AddOrRemovePassword(env, u, op, false)
    else if op[0] == '(' && op[|op| - 1] == ')' then AddSelector(env, t, u, Split(op[1..|op| - 1], ' '))
    else if SameIgnoringCase(op, "clearselectors") then Outcome(u.(selectors := []), true)
    else SetRoot(t, u, op)
  }

  /** Rules in order until one is refused; those before it stay in force. */
  function SetEach(env: Env, t: Table, u: UserValue, ops: seq<string>): Outcome
    decreases |ops|
  {
    if ops == [] then Outcome(u, true)
    else
      var r := SetEach(env, t, u, ops[..|ops| - 1]);
      if !r.ok then r else SetOne(env, t, r.user, ops[|ops| - 1])
  }

  function ResetRules(env: Env): seq<string> {
    ["resetpass", "resetkeys", "resetchannels"] + (if env.pubsubAllChannels then ["allchannels"] else []) + ["off", "-@all"]
  }

  /** "reset" stands for its rules. */
  function Expand(env: Env, ops: seq<string>): seq<string> {
    if ops == [] then []
    else (if SameIgnoringCase(ops[0], "reset") then ResetRules(env) else [ops[0]]) + Expand(env, ops[1..])
  }

  function SetUser(env: Env, t: Table, u: UserValue, ops: seq<string>): Outcome {
    SetEach(env, t, u, Expand(env, ops))
  }

  /** Exactly one of on and off, no passwords under nopass, and sound selectors. */
  ghost predicate UserOk(t: Table, u: UserValue) {
    && u.enabled != u.disabled
    && (u.noPass ==> u.passwords == {})
    && (forall s | s in u.selectors :: Sound(t, s))
  }

  lemma {:induction false} FreshSound(t: Table, root: bool, pubsubDefault: bool)
    ensures Sound(t, Fresh(root, pubsubDefault))
  {
  }

  lemma {:induction false} AddSelectorKeeps(env: Env, t: Table, u: UserValue, rules: seq<string>)
    requires TableOk(t) && UserOk(t, u)
    ensures UserOk(t, AddSelector(env, t, u, rules).user)
  {
    hide Sound, ApplyAll, TableOk;
    FreshSound(t, false, env.pubsubDefault);
    if ApplyAll(t, Fresh(false, env.pubsubDefault), rules).Some? {
      ReachableSound(t, Fresh(false, env.pubsubDefault), rules);
    }
  }

  lemma {:induction false} SetRootKeeps(t: Table, u: UserValue, op: string)
    requires TableOk(t) && UserOk(t, u)
    ensures UserOk(t, SetRoot(t, u, op).user)
  {
    hide Sound, Apply, TableOk;
    var i := RootIndex(u.selectors);
    if i < |u.selectors| && Apply(t, u.selectors[i], op).Some? {
      RuleSound(t, u.selectors[i], op);
    }
  }

  lemma {:induction false} SetOneKeeps(env: Env, t: Table, u: UserValue, op: string)
    requires TableOk(t) && UserOk(t, u)
    ensures UserOk(t, SetOne(env, t, u, op).user)
  {
    hide Sound, SameIgnoringCase, Split, TableOk, AddSelector, SetRoot;
    SetRootKeeps(t, u, op);
    if op != "" {
      AddSelectorKeeps(env, t, u, Split(if |op| > 1 then op[1..|op| - 1] else "", ' '));
    }
  }

  lemma {:induction false} SetEachKeeps(env: Env, t: Table, u: UserValue, ops: seq<string>)
    requires TableOk(t) && UserOk(t, u)
    ensures UserOk(t, SetEach(env, t, u, ops).user)
  {
    hide UserOk, SetOne;
    if ops != [] {
      SetEachKeeps(env, t, u, ops[..|ops| - 1]);
      SetOneKeeps(env, t, SetEach(env, t, u, ops[..|ops| - 1]).user, ops[|ops| - 1]);
    }
  }

  /** A user stays consistent under any rules, accepted or refused on the way. */
  lemma {:induction false} UserStaysOk(env: Env, t: Table, ops: seq<string>)
    requires TableOk(t)
    ensures UserOk(t, SetUser(env, t, NewUser(env), ops).user)
  {
    FreshSound(t, true, env.pubsubDefault);
    SetEachKeeps(env, t, NewUser(env), Expand(env, ops));
  }

  // Switches and passwords

  predicate HoldsFor(f: Fact, u: UserValue)
    requires f.Enabled? || f.NoPassword? || f.Password?
  {
    match f
    case Enabled => u.enabled
    case NoPassword => u.noPass
    case Password(_, digest) => digest in u.passwords
  }

  lemma {:induction false} UserWordsAreLower()
    ensures LowerAll("on") == "on" && LowerAll("off") == "off" && LowerAll("nopass") == "nopass"
    ensures LowerAll("resetpass") == "resetpass" && LowerAll("clearselectors") == "clearselectors"
    ensures "on"[0] == 'o' && "off"[0] == 'o' && "nopass"[0] == 'n' && "resetpass"[0] == 'r' && "clearselectors"[0] == 'c'
    ensures |"on"| == 2 && |"off"| == 3 && |"nopass"| == 6
  {
  }

  /** One accepted rule makes a fact hold, ends it, or leaves it. */
  lemma {:induction false} UserFactStep(env: Env, t: Table, u: UserValue, op: string, f: Fact)
    requires SetOne(env, t, u, op).ok && (f.Enabled? || f.NoPassword? || (f.Password? && f.sha256 == env.sha256))
    ensures HoldsFor(f, SetOne(env, t, u, op).user) <==> TurnsOn(f, op) || (HoldsFor(f, u) && !TurnsOff(f, op))
  {
    hide LowerAll, Split, AddSelector, SetRoot;
    UserWordsAreLower();
    FirstIsLowered(op);
    SelectorsOnly(env, t, u, op);
  }

  lemma {:induction false} SelectorsOnly(env: Env, t: Table, u: UserValue, op: string)
    ensures SetRoot(t, u, op).user.(selectors := []) == u.(selectors := [])
    ensures forall rules :: AddSelector(env, t, u, rules).user.(selectors := []) == u.(selectors := [])
  {
    hide Apply, ApplyAll, RootIndex;
  }

  lemma {:induction false} FirstIsLowered(op: string)
    ensures |LowerAll(op)| == |op|
    ensures op != "" && op[0] in {'>', '<', '#', '!', '('} ==> LowerAll(op)[0] == op[0]
  {
  }

  /** The texts that are accepted as rules of a user. */
  ghost predicate UserAccepted(env: Env, t: Table, u: UserValue, op: string) {
    || op == "" || LowerAll(op) in {"on", "off", "nopass", "resetpass", "clearselectors"}
    || op[0] in {'>', '<'} || (op[0] in {'#', '!'} && env.isSha256(op[1..]))
    || if op[0] == '(' && op[|op| - 1] == ')' then
         ApplyAll(t, Fresh(false, env.pubsubDefault), Split(op[1..|op| - 1], ' ')).Some?
       else
         op[0] !in {'#', '!'} && var i := RootIndex(u.selectors); i < |u.selectors| && Accepted(t, u.selectors[i], op)
  }

  lemma {:induction false} UserAcceptedExact(env: Env, t: Table, u: UserValue, op: string)
    ensures SetOne(env, t, u, op).ok <==> UserAccepted(env, t, u, op)
  {
    hide LowerAll, Split, Apply, ApplyAll, Accepted, RootIndex;
    UserWordsAreLower();
    FirstIsLowered(op);
    var i := RootIndex(u.selectors);
    if i < |u.selectors| {
      AcceptedExact(t, u.selectors[i], op);
    }
  }

  /**
   After any accepted rules a new user is on, needs no password, or has a password, exactly if some rule made
   it so and none after it ended that.
   */
  lemma {:induction false} LastUserRuleWins(env: Env, t: Table, ops: seq<string>, f: Fact)
    requires SetUser(env, t, NewUser(env), ops).ok
    requires f.Enabled? || f.NoPassword? || (f.Password? && f.sha256 == env.sha256)
    ensures HoldsFor(f, SetUser(env, t, NewUser(env), ops).user) <==> Since(f, Expand(env, ops))
  {
    hide SetEach, Expand;
    LastUserFact(env, t, Expand(env, ops), f);
  }

  lemma {:induction false} LastUserFact(env: Env, t: Table, ops: seq<string>, f: Fact)
    requires SetEach(env, t, NewUser(env), ops).ok
    requires f.Enabled? || f.NoPassword? || (f.Password? && f.sha256 == env.sha256)
    ensures HoldsFor(f, SetEach(env, t, NewUser(env), ops).user) <==> Since(f, ops)
  {
    hide SetOne, TurnsOn, TurnsOff, Since;
    if ops == [] {
      NothingSince(f);
    } else {
      var n := |ops| - 1;
      LastUserFact(env, t, ops[..n], f);
      UserFactStep(env, t, SetEach(env, t, NewUser(env), ops[..n]).user, ops[n], f);
      SinceLast(f, ops);
    }
  }

  lemma {:induction false} SetEachCons(env: Env, t: Table, u: UserValue, op: string, ops: seq<string>)
    ensures SetEach(env, t, u, [op] + ops)
         == var r := SetOne(env, t, u, op); if r.ok then SetEach(env, t, r.user, ops) else r
  {
    hide SetOne;
    SetEachSplits(env, t, u, [op], ops);
    assert [op][..0] == [];
  }

  /** The rules of "reset" one by one, for a user whose root selector is the i-th. */
  lemma {:induction false} ResetSteps(env: Env, t: Table, u: UserValue, i: nat)
    requires i == RootIndex(u.selectors) < |u.selectors|
    ensures var s := u.selectors[i];
            && SetOne(env, t, u, "resetpass") == Outcome(u.(noPass := false, passwords := {}), true)
            && SetOne(env, t, u, "off") == Outcome(u.(disabled := true, enabled := false), true)
            && SetOne(env, t, u, "resetkeys") == Outcome(u.(selectors := u.selectors[i := s.(allKeys := false, patterns := [])]), true)
            && SetOne(env, t, u, "resetchannels")
               == Outcome(u.(selectors := u.selectors[i := s.(allChannels := false, channels := [])]), true)
            && SetOne(env, t, u, "allchannels")
               == Outcome(u.(selectors := u.selectors[i := s.(allChannels := true, channels := [])]), true)
            && SetOne(env, t, u, "-@all")
               == Outcome(u.(selectors := u.selectors[i := s.(allCommands := false, allowed := {}, subCommand := map[])]), true)
  {
    hide LowerAll, Split, ApplyKeyRule, ApplyChannelRule, ApplyCommandRule, RootIndex;
    UserWordsAreLower();
    WordsAreLower();
    RootWords();
  }

  lemma {:induction false} RootWords()
    ensures "resetkeys"[5] == 'k' && "resetchannels"[5] == 'c' && "allchannels"[0] == 'a' && "-@all"[0] == '-'
    ensures |"resetkeys"| == 9 && |"resetpass"| == 9 && "resetpass"[5] == 'p' && |"resetchannels"| == 13 && |"allchannels"| == 11
    ensures "resetkeys"[0] == 'r' && "resetchannels"[0] == 'r' && |"-@all"| == 5 && |"off"| == 3 && |"on"| == 2 && "off"[1] == 'f'
    ensures |"allkeys"| == 7 && "allkeys"[0] == 'a' && "allcommands"[3] == 'c' && "allchannels"[4] == 'h' && "allcommands"[4] == 'o'
    ensures |"nocommands"| == 10 && |"&*"| == 2 && |"+@all"| == 5 && "+@all"[0] == '+'
  {
  }

  lemma {:induction false} RootIndexStays(ss: seq<Selector>, i: nat, s: Selector)
    requires i == RootIndex(ss) < |ss| && s.root
    ensures RootIndex(ss[i := s]) == i
  {
    if i > 0 {
      assert ss[i := s][1..] == ss[1..][i - 1 := s];
      RootIndexStays(ss[1..], i - 1, s);
    }
  }

  /** The last two rules of "reset". */
  lemma {:induction false} ResetEnds(env: Env, t: Table, u: UserValue, i: nat)
    requires i == RootIndex(u.selectors) < |u.selectors|
    ensures SetEach(env, t, u, ["off", "-@all"])
         == Outcome(u.(disabled := true, enabled := false,
                       selectors := u.selectors[i := u.selectors[i].(allCommands := false, allowed := {}, subCommand := map[])]), true)
  {
    hide SetOne, RootIndex;
    var v := u.(disabled := true, enabled := false);
    assert ["off", "-@all"] == ["off"] + ["-@all"] && ["-@all"] == ["-@all"] + [];
    SetEachCons(env, t, u, "off", ["-@all"]);
    SetEachCons(env, t, v, "-@all", []);
    ResetSteps(env, t, u, i);
    ResetSteps(env, t, v, i);
  }

  /** The rules of "reset" that follow the password, for the root selector. */
  lemma {:induction false} ResetRoot(env: Env, t: Table, u: UserValue, i: nat)
    requires i == RootIndex(u.selectors) < |u.selectors|
    ensures var mid := if env.pubsubAllChannels then ["allchannels"] else [];
            SetEach(env, t, u, ["resetkeys"] + (["resetchannels"] + (mid + ["off", "-@all"])))
            == Outcome(u.(disabled := true, enabled := false,
                          selectors := u.selectors[i := Fresh(true, env.pubsubAllChannels)]), true)
  {
    hide SetOne, RootIndex, SetEach;
    var s := u.selectors[i];
    var mid := if env.pubsubAllChannels then ["allchannels"] else [];
    var rest := mid + ["off", "-@all"];
    var a := u.(selectors := u.selectors[i := s.(allKeys := false, patterns := [])]);
    SetEachCons(env, t, u, "resetkeys", ["resetchannels"] + rest);
    ResetSteps(env, t, u, i);
    RootIndexStays(u.selectors, i, a.selectors[i]);
    var b := a.(selectors := a.selectors[i := a.selectors[i].(allChannels := false, channels := [])]);
    SetEachCons(env, t, a, "resetchannels", rest);
    ResetSteps(env, t, a, i);
    RootIndexStays(a.selectors, i, b.selectors[i]);
    var c := if mid == [] then b else b.(selectors := b.selectors[i := b.selectors[i].(allChannels := true, channels := [])]);
    if mid == [] {
      assert rest == ["off", "-@all"];
    } else {
      SetEachCons(env, t, b, "allchannels", ["off", "-@all"]);
      ResetSteps(env, t, b, i);
    }
    RootIndexStays(b.selectors, i, c.selectors[i]);
    assert b.selectors[i := b.selectors[i]] == b.selectors;
    ResetEnds(env, t, c, i);
    assert c.selectors[i].(allCommands := false, allowed := {}, subCommand := map[]) == Fresh(true, env.pubsubAllChannels);
    assert c.selectors[i := Fresh(true, env.pubsubAllChannels)] == u.selectors[i := Fresh(true, env.pubsubAllChannels)];
  }

  /** After "reset" a user with a root selector is off and has no passwords, and that selector is as good as new. */
  lemma {:induction false} ResetClears(env: Env, t: Table, u: UserValue, i: nat)
    requires i == RootIndex(u.selectors) < |u.selectors|
    ensures SetUser(env, t, u, ["reset"])
         == Outcome(u.(enabled := false, disabled := true, noPass := false, passwords := {},
                       selectors := u.selectors[i := Fresh(true, env.pubsubAllChannels)]), true)
  {
    hide SetOne, RootIndex, SetEach, Expand;
    ExpandOne(env, "reset");
    var mid := if env.pubsubAllChannels then ["allchannels"] else [];
    var rest := ["resetkeys"] + (["resetchannels"] + (mid + ["off", "-@all"]));
    assert ResetRules(env) == ["resetpass"] + rest;
    SetEachCons(env, t, u, "resetpass", rest);
    ResetSteps(env, t, u, i);
    ResetRoot(env, t, u.(noPass := false, passwords := {}), i);
  }

  // What a user may execute

  /**
   The permission test: the first selector that passes the command test and the tests of keys and channels
   grants the command; with no selectors at all there is nothing to deny it.
   */
  predicate Passes(u: UserValue, cmd: Cmd, index: int, others: Selector -> bool) {
    u.selectors == [] || exists i | 0 <= i < |u.selectors| :: Permitted(u.selectors[i], cmd, index) && others(u.selectors[i])
  }

  /** What a rule of a user does to the selectors. */
  datatype Effect = Elsewhere | Adds(rules: seq<string>) | Clears | OnRoot

  function EffectOf(op: string): Effect {
    if op == "" || SameIgnoringCase(op, "on") || SameIgnoringCase(op, "off") || SameIgnoringCase(op, "nopass")
       || SameIgnoringCase(op, "resetpass") || op[0] in {'>', '#', '<', '!'} then Elsewhere
    else if op[0] == '(' && op[|op| - 1] == ')' then Adds(Split(op[1..|op| - 1], ' '))
    else if SameIgnoringCase(op, "clearselectors") then Clears
    else OnRoot
  }

  /** A selector, told by the rules that made it. */
  datatype Made = Made(root: bool, rules: seq<string>)

  /** The selectors of a new user after rules that were all accepted; a root selector comes first. */
  function History(ops: seq<string>): seq<Made>
    decreases |ops|
  {
    if ops == [] then [Made(true, [])]
    else
      var h, op := History(ops[..|ops| - 1]), ops[|ops| - 1];
      match EffectOf(op)
      case Elsewhere => h
      case Adds(rules) => h + [Made(false, rules)]
      case Clears => []
      case OnRoot => if h == [] || !h[0].root then h else h[0 := Made(true, h[0].rules + [op])]
  }

  ghost predicate MadeBy(env: Env, t: Table, s: Selector, m: Made) {
    s.root == m.root && ApplyAll(t, Fresh(m.root, env.pubsubDefault), m.rules) == Some(s)
  }

  ghost predicate AllMadeBy(env: Env, t: Table, ss: seq<Selector>, h: seq<Made>) {
    && |ss| == |h|
    && (forall i | 0 <= i < |ss| :: MadeBy(env, t, ss[i], h[i]))
    && (forall i | 0 < i < |ss| :: !ss[i].root)
  }

  lemma {:induction false} RootComesFirst(ss: seq<Selector>)
    requires forall i | 0 < i < |ss| :: !ss[i].root
    ensures RootIndex(ss) == if ss == [] || ss[0].root then 0 else |ss|
  {
    if ss != [] && !ss[0].root {
      RootComesFirst(ss[1..]);
    }
  }

  lemma {:induction false} CommandRuleKeepsRoot(t: Table, s: Selector, name: string, allow: bool)
    ensures ApplyCommandRule(t, s, name, allow).Some? ==> ApplyCommandRule(t, s, name, allow).value.root == s.root
  {
    hide Split, SubCmdIndex, FullMask, MaskOf;
  }

  lemma {:induction false} PatternRuleKeepsRoot(s: Selector, op: string)
    ensures ApplyKeyRule(s, op).Some? ==> ApplyKeyRule(s, op).value.root == s.root
    ensures ApplyChannelRule(s, op).Some? ==> ApplyChannelRule(s, op).value.root == s.root
  {
    hide InsertPattern, HasSpace;
  }

  lemma {:induction false} RootStays(t: Table, s: Selector, op: string)
    requires Apply(t, s, op).Some?
    ensures Apply(t, s, op).value.root == s.root
  {
    hide RuleOf, ApplyKeyRule, ApplyChannelRule, ApplyCommandRule, WithMask, IdsWithSubs, CategoryIds, CategoryIdsWithSubs,
         FullMask, AllBits;
    PatternRuleKeepsRoot(s, op);
    match RuleOf(op)
    case CommandRule(name, allow) => CommandRuleKeepsRoot(t, s, name, allow);
    case _ =>
  }

  lemma {:induction false} RootStaysAll(t: Table, s: Selector, ops: seq<string>)
    requires ApplyAll(t, s, ops).Some?
    ensures ApplyAll(t, s, ops).value.root == s.root
  {
    hide Apply;
    if ops != [] {
      var n := |ops| - 1;
      RootStaysAll(t, s, ops[..n]);
      RootStays(t, ApplyAll(t, s, ops[..n]).value, ops[n]);
    }
  }

  lemma {:induction false} OneEffect(env: Env, t: Table, u: UserValue, op: string, h: seq<Made>, h': seq<Made>)
    requires AllMadeBy(env, t, u.selectors, h) && SetOne(env, t, u, op).ok
    requires match EffectOf(op)
             case Elsewhere => h' == h
             case Adds(rules) => h' == h + [Made(false, rules)]
             case Clears => h' == []
             case OnRoot => h' == if h == [] || !h[0].root then h else h[0 := Made(true, h[0].rules + [op])]
    ensures AllMadeBy(env, t, SetOne(env, t, u, op).user.selectors, h')
  {
    hide Apply, ApplyAll, SameIgnoringCase, Split;
    match EffectOf(op)
    case Adds(rules) => RootStaysAll(t, Fresh(false, env.pubsubDefault), rules);
    case OnRoot =>
      RootComesFirst(u.selectors);
      RootRule(env, t, u.selectors[0], h[0], op);
    case _ =>
  }

  lemma {:induction false} RootRule(env: Env, t: Table, s: Selector, m: Made, op: string)
    requires MadeBy(env, t, s, m) && Apply(t, s, op).Some?
    ensures MadeBy(env, t, Apply(t, s, op).value, Made(m.root, m.rules + [op]))
  {
    hide Apply, ApplyAll, Fresh;
    RootStays(t, s, op);
    var rules, n := m.rules + [op], |m.rules|;
    assert rules[..n] == m.rules && rules[..n + 1] == rules;
    OneRuleMore(t, Fresh(m.root, env.pubsubDefault), rules, n);
  }

  /** After accepted rules every selector is what its own rules make of a fresh one. */
  lemma {:induction false} SelectorsMade(env: Env, t: Table, ops: seq<string>)
    requires SetEach(env, t, NewUser(env), ops).ok
    ensures AllMadeBy(env, t, SetEach(env, t, NewUser(env), ops).user.selectors, History(ops))
  {
    hide SetOne, EffectOf, AllMadeBy;
    if ops == [] {
      NewUserMade(env, t);
    } else {
      var n := |ops| - 1;
      SelectorsMade(env, t, ops[..n]);
      OneEffect(env, t, SetEach(env, t, NewUser(env), ops[..n]).user, ops[n], History(ops[..n]), History(ops));
    }
  }

  lemma {:induction false} NewUserMade(env: Env, t: Table)
    ensures AllMadeBy(env, t, NewUser(env).selectors, [Made(true, [])])
  {
  }

  /**
   The last rule wins for users: after any accepted rules a command or subcommand that needs permission is
   granted if and only if every selector was cleared away, or the last rule that covers it in some selector's
   own list was an allow and that selector lets its keys and channels through.
   */
  lemma {:induction false} UserLastRuleWins(env: Env, t: Table, ops: seq<string>, name: string, index: int,
                                            others: Selector -> bool)
    requires TableOk(t) && name in t && IsTarget(t[name], index) && !t[name].noAuth
    requires SetUser(env, t, NewUser(env), ops).ok
    ensures var h := History(Expand(env, ops));
            var u := SetUser(env, t, NewUser(env), ops).user;
            && |h| == |u.selectors|
            && (Passes(u, t[name], index, others) <==>
                  || h == []
                  || exists i | 0 <= i < |h| :: LastAllows(t, h[i].rules, name, index) && others(u.selectors[i]))
  {
    hide SetEach, Expand, History, TableOk, IsTarget, Permitted, LastSays, LastAllows, Fresh, ApplyAll;
    var h := History(Expand(env, ops));
    var u := SetUser(env, t, NewUser(env), ops).user;
    SelectorsMade(env, t, Expand(env, ops));
    forall i | 0 <= i < |h|
      ensures Permitted(u.selectors[i], t[name], index) <==> LastAllows(t, h[i].rules, name, index)
    {
      assert MadeBy(env, t, u.selectors[i], h[i]);
      NewSelector(t, h[i].root, env.pubsubDefault, t[name], index);
      LastRuleWins(t, Fresh(h[i].root, env.pubsubDefault), h[i].rules, name, index);
      LastSaysExact(t, h[i].rules, name, index);
    }
  }

  /** With its selectors cleared a user passes for every command, whatever was refused before. */
  lemma {:induction false} ClearedUserPasses(env: Env, t: Table, ops: seq<string>, cmd: Cmd, index: int,
                                             others: Selector -> bool)
    requires SetUser(env, t, NewUser(env), ops).ok
    ensures var r := SetUser(env, t, NewUser(env), ops + ["clearselectors"]);
            r.ok && Passes(r.user, cmd, index, others)
  {
    hide SetOne, Expand, SameIgnoringCase, Permitted;
    ExpandSplits(env, ops, ["clearselectors"]);
    ExpandOne(env, "clearselectors");
    SetEachSplits(env, t, NewUser(env), Expand(env, ops), ["clearselectors"]);
    Clearing(env, t, SetUser(env, t, NewUser(env), ops).user);
  }

  lemma {:induction false} Clearing(env: Env, t: Table, u: UserValue)
    ensures !SameIgnoringCase("clearselectors", "reset")
    ensures SetEach(env, t, u, ["clearselectors"]) == Outcome(u.(selectors := []), true)
  {
    hide SetRoot, AddSelector, AddOrRemovePassword;
    var op := "clearselectors";
    assert |op| == 14 && |"nopass"| == 6 && |"resetpass"| == 9;
    assert [op][..0] == [];
  }

  // The user in place

  lemma {:induction false} SetEachSplits(env: Env, t: Table, u: UserValue, a: seq<string>, b: seq<string>)
    ensures SetEach(env, t, u, a + b)
         == var r := SetEach(env, t, u, a); if r.ok then SetEach(env, t, r.user, b) else r
    decreases |b|
  {
    hide SetOne;
    if b == [] {
      assert a + b == a;
    } else {
      var c := b[..|b| - 1];
      assert (a + b)[..|a + b| - 1] == a + c;
      SetEachSplits(env, t, u, a, c);
    }
  }

  lemma {:induction false} ExpandSplits(env: Env, a: seq<string>, b: seq<string>)
    ensures Expand(env, a + b) == Expand(env, a) + Expand(env, b)
    decreases |a|
  {
    hide SameIgnoringCase, ResetRules;
    if a == [] {
      assert a + b == b;
    } else {
      assert (a + b)[1..] == a[1..] + b;
      ExpandSplits(env, a[1..], b);
    }
  }

  class User {
    var enabled: bool
    var disabled: bool
    var noPass: bool
    var passwords: set<string>
    var selectors: seq<Selector>

    ghost function Value(): UserValue
      reads this
    {
      UserValue(enabled, disabled, noPass, passwords, selectors)
    }

    constructor (env: Env)
      ensures Value() == NewUser(env)
    {
      enabled, disabled, noPass, passwords := false, true, false, {};
      selectors := [Fresh(true, env.pubsubDefault)];
    }

    method ChangePassword(env: Env, op: string, add: bool) returns (ok: bool)
      requires op != ""
      modifies this
      ensures AddOrRemovePassword(env, old(Value()), op, add) == Outcome(Value(), ok)
    {
      var password := op[1..];
      if op[0] in {'>', '<'} {
        password := env.sha256(password);
      } else if !env.isSha256(password) {
        return false;
      }
      if add {
        passwords, noPass := passwords + {password}, false;
      } else {
        passwords := passwords - {password};
      }
      return true;
    }

    method CreateSelector(env: Env, t: Table, rules: seq<string>) returns (ok: bool)
      modifies this
      ensures AddSelector(env, t, old(Value()), rules) == Outcome(Value(), ok)
    {
      var s := ApplyAll(t, Fresh(false, env.pubsubDefault), rules);
      if s.None? {
        return false;
      }
      selectors := selectors + [s.value];
      return true;
    }

    method SetRootSelector(t: Table, op: string) returns (ok: bool)
      modifies this
      ensures SetRoot(t, old(Value()), op) == Outcome(Value(), ok)
    {
      hide Apply;
      var i := RootIndex(selectors);
      if i == |selectors| {
        return false;
      }
      var s := Apply(t, selectors[i], op);
      if s.None? {
        return false;
      }
      selectors := selectors[i := s.value];
      return true;
    }

    /** One rule other than "reset". */
    method SetRule(env: Env, t: Table, op: string) returns (ok: bool)
      modifies this
      ensures SetOne(env, t, old(Value()), op) == Outcome(Value(), ok)
    {
      hide SameIgnoringCase, Split, AddSelector, SetRoot, AddOrRemovePassword;
      if op == "" {
        return true;
      }
      if SameIgnoringCase(op, "on") {
        enabled, disabled := true, false;
      } else if SameIgnoringCase(op, "off") {
        disabled, enabled := true, false;
      } else if SameIgnoringCase(op, "nopass") {
        noPass, passwords := true, {};
      } else if SameIgnoringCase(op, "resetpass") {
        noPass, passwords := false, {};
      } else if op[0] in {'>', '#'} {
        ok := ChangePassword(env, op, true);
        return;
      } else if op[0] in {'<', '!'} {
        ok := ChangePassword(env, op, false);
        return;
      } else if op[0] == '(' && op[|op| - 1] == ')' {
        ok := CreateSelector(env, t, Split(op[1..|op| - 1], ' '));
        return;
      } else if SameIgnoringCase(op, "clearselectors") {
        selectors := [];
      } else {
        ok := SetRootSelector(t, op);
        return;
      }
      return true;
    }

    /** Rules in order, up to the first that is refused. */
    method SetRules(env: Env, t: Table, ops: seq<string>) returns (ok: bool)
      modifies this
      ensures SetEach(env, t, old(Value()), ops) == Outcome(Value(), ok)
    {
      hide SetOne;
      for i := 0 to |ops|
        invariant SetEach(env, t, old(Value()), ops[..i]) == Outcome(Value(), true)
      {
        assert ops[..i + 1][..i] == ops[..i];
        ok := SetRule(env, t, ops[i]);
        if !ok {
          SetEachSplits(env, t, old(Value()), ops[..i + 1], ops[i + 1..]);
          assert ops == ops[..i + 1] + ops[i + 1..];
          return;
        }
      }
      assert ops[..|ops|] == ops;
      return true;
    }

    /** The permission test: the subcommand first, then the selectors in order until one grants the command. */
    method CheckUserPermission(cmd: Cmd, sub: string, others: Selector -> bool) returns (noSubCmd: bool, ok: bool)
      ensures noSubCmd <==> cmd.subs != [] && SubCmdIndex(cmd.subs, sub) < 0
      ensures ok <==> !noSubCmd && Passes(Value(), cmd, if cmd.subs == [] then -1 else SubCmdIndex(cmd.subs, sub), others)
    {
      hide SubCmdIndex, Permitted;
      var index := -1;
      if cmd.subs != [] {
        index := SubCmdIndex(cmd.subs, sub);
        if index < 0 {
          return true, false;
        }
      }
      ok := true;
      for i := 0 to |selectors|
        invariant forall j | 0 <= j < i :: !(Permitted(selectors[j], cmd, index) && others(selectors[j]))
        invariant ok <==> i == 0
      {
        ok := Permitted(selectors[i], cmd, index) && others(selectors[i]);
        if ok {
          return false, true;
        }
      }
      noSubCmd := false;
    }

    /** The rules of a command in order, up to the first that is refused; "reset" runs its own. */
    method Set(env: Env, t: Table, ops: seq<string>) returns (ok: bool)
      modifies this
      ensures SetUser(env, t, old(Value()), ops) == Outcome(Value(), ok)
    {
      hide SetOne, SetEach, Expand, SameIgnoringCase, ResetRules;
      NoRules(env, t, Value());
      for i := 0 to |ops|
        invariant SetEach(env, t, old(Value()), Expand(env, ops[..i])) == Outcome(Value(), true)
      {
        var run := if SameIgnoringCase(ops[i], "reset") then ResetRules(env) else [ops[i]];
        ExpandOne(env, ops[i]);
        assert ops[..i + 1] == ops[..i] + [ops[i]];
        ExpandSplits(env, ops[..i], [ops[i]]);
        SetEachSplits(env, t, old(Value()), Expand(env, ops[..i]), run);
        ok := SetRules(env, t, run);
        if !ok {
          assert ops == ops[..i + 1] + ops[i + 1..];
          ExpandSplits(env, ops[..i + 1], ops[i + 1..]);
          SetEachSplits(env, t, old(Value()), Expand(env, ops[..i + 1]), Expand(env, ops[i + 1..]));
          return;
        }
      }
      assert ops[..|ops|] == ops;
      return true;
    }
  }

  lemma {:induction false} NoRules(env: Env, t: Table, u: UserValue)
    ensures SetEach(env, t, u, Expand(env, [])) == Outcome(u, true)
  {
  }

  lemma {:induction false} ExpandOne(env: Env, op: string)
    ensures Expand(env, [op]) == if SameIgnoringCase(op, "reset") then ResetRules(env) else [op]
  {
    assert [op][1..] == [];
  }
}
