/**
 ACL selectors: rules fold into a command bitset, subcommand masks and fast-path flags, and the command
 test answers as the last rule that covers the command says.
 */
module Acl {
  import opened Wrappers

  const USER_COMMAND_BITS_COUNT: nat := 1024

  /** A command: its number, subcommand names, categories, and whether it needs no permission. */
  datatype Cmd = Cmd(id: nat, subs: seq<string>, categories: set<nat>, noAuth: bool)

  type Table = map<string, Cmd>

  /** Command numbers are distinct and within the bitset; subcommands fit a 32-bit mask. */
  ghost predicate TableOk(t: Table) {
    && (forall n | n in t :: t[n].id < USER_COMMAND_BITS_COUNT && |t[n].subs| <= 32)
    && (forall a, b | a in t && b in t && t[a].id == t[b].id :: a == b)
  }

  const CommandCategories: map<string, nat> := map[
    "keyspace" := 0, "read" := 1, "write" := 2, "set" := 3, "sortedset" := 4, "list" := 5, "hash" := 6,
    "string" := 7, "bitmap" := 8, "hyperloglog" := 9, "geo" := 10, "stream" := 11, "pubsub" := 12,
    "admin" := 13, "fast" := 14, "slow" := 15, "blocking" := 16, "dangerous" := 17, "connection" := 18,
    "transaction" := 19, "scripting" := 20]

  // Strings

  function Lower(c: char): char {
    if 'A' <= c <= 'Z' then (c as int + 32) as char else c
  }

  function LowerAll(s: string): string {
    seq(|s|, i requires 0 <= i < |s| => Lower(s[i]))
  }

  predicate SameIgnoringCase(a: string, b: string) {
    LowerAll(a) == LowerAll(b)
  }

  /** The character at i, or NUL past the end. */
  function CharAt(s: string, i: nat): char {
    if i < |s| then s[i] else '\0'
  }

  /** The non-empty pieces between delimiters. */
  function Split(s: string, delim: char): seq<string> {
    SplitFrom(s, delim, [])
  }

  function SplitFrom(s: string, delim: char, piece: string): seq<string> {
    if s == [] then (if piece == [] then [] else [piece])
    else if s[0] == delim then (if piece == [] then [] else [piece]) + SplitFrom(s[1..], delim, [])
    else SplitFrom(s[1..], delim, piece + [s[0]])
  }

  predicate HasSpace(s: string) {
    exists c | c in s :: c in {' ', '\t', '\n', '\r', '\U{0b}', '\U{0c}'}
  }

  /** The index of a subcommand name, ignoring case; -1 if there is none. */
  function SubCmdIndex(subs: seq<string>, name: string): (i: int)
    ensures -1 <= i < |subs|
    ensures i >= 0 ==> SameIgnoringCase(subs[i], name)
    ensures forall j | 0 <= j < (if i < 0 then |subs| else i) :: !SameIgnoringCase(subs[j], name)
  {
    if subs == [] then -1
    else if SameIgnoringCase(subs[0], name) then 0
    else
      var i := SubCmdIndex(subs[1..], name);
      if i < 0 then -1 else i + 1
  }

  // Selectors

  datatype Pattern = Pattern(read: bool, write: bool, text: string)

  datatype Selector = Selector(
    root: bool, allKeys: bool, allChannels: bool, allCommands: bool,
    allowed: set<nat>, subCommand: map<nat, set<nat>>, patterns: seq<Pattern>, channels: seq<string>)

  /** All the bits of a subcommand mask. */
  function FullMask(): set<nat> {
    Below(32)
  }

  function AllBits(): set<nat> {
    Below(USER_COMMAND_BITS_COUNT)
  }

  function Below(n: nat): (r: set<nat>)
    ensures forall i: nat :: i in r <==> i < n
  {
    if n == 0 then {} else Below(n - 1) + {n - 1}
  }

  function Change(s: Selector, cmd: Cmd, allow: bool): Selector {
    var mask := if allow then FullMask() else {};
    s.(allowed := if allow then s.allowed + {cmd.id} else s.allowed - {cmd.id},
       allCommands := s.allCommands && allow,
       subCommand := if cmd.subs != [] then s.subCommand[cmd.id := mask] else s.subCommand)
  }

  function MaskOf(s: Selector, id: nat): set<nat> {
    if id in s.subCommand then s.subCommand[id] else {}
  }

  function ChangeSub(s: Selector, cmd: Cmd, index: nat, allow: bool): Selector {
    if allow then s.(subCommand := s.subCommand[cmd.id := MaskOf(s, cmd.id) + {index}])
    else s.(allCommands := false, subCommand := s.subCommand[cmd.id := MaskOf(s, cmd.id) - {index}])
  }

  /** Every command of a category among the given names changed, in whatever order. */
  function ChangeCategory(t: Table, names: set<string>, s: Selector, category: nat, allow: bool): Selector {
    var ids := CategoryIds(t, names, category);
    s.(allowed := if allow then s.allowed + ids else s.allowed - ids,
       allCommands := s.allCommands && (allow || ids == {}),
       subCommand := WithMask(s.subCommand, CategoryIdsWithSubs(t, names, category), if allow then FullMask() else {}))
  }

  /** The same mask for every given command. */
  function WithMask(m: map<nat, set<nat>>, ids: set<nat>, mask: set<nat>): map<nat, set<nat>> {
    m + map id | id in ids :: mask
  }

  function CategoryIds(t: Table, names: set<string>, category: nat): set<nat> {
    set n | n in names && n in t && category in t[n].categories :: t[n].id
  }

  function CategoryIdsWithSubs(t: Table, names: set<string>, category: nat): set<nat> {
    set n | n in names && n in t && category in t[n].categories && t[n].subs != [] :: t[n].id
  }

  function SetAll(t: Table, s: Selector): Selector {
    s.(allCommands := true, allowed := AllBits(),
       subCommand := WithMask(s.subCommand, IdsWithSubs(t, t.Keys), FullMask()))
  }

  function ResetAll(s: Selector): Selector {
    s.(allCommands := false, allowed := {}, subCommand := map[])
  }

  // Rules

  datatype Rule =
    | AllKeys | ResetKeys | AllChannels | ResetChannels | AllCommands | NoCommands
    | KeyRule | ChannelRule | CommandRule(name: string, allow: bool) | CategoryRule(name: string, allow: bool) | Unknown

  function RuleOf(op: string): Rule {
    if SameIgnoringCase(op, "allkeys") || op == "~*" then AllKeys
    else if SameIgnoringCase(op, "resetkeys") then ResetKeys
    else if SameIgnoringCase(op, "allchannels") || SameIgnoringCase(op, "&*") then AllChannels
    else if SameIgnoringCase(op, "resetchannels") then ResetChannels
    else if SameIgnoringCase(op, "allcommands") || SameIgnoringCase(op, "+@all") then AllCommands
    else if SameIgnoringCase(op, "nocommands") || SameIgnoringCase(op, "-@all") then NoCommands
    else if CharAt(op, 0) == '~' || CharAt(op, 0) == '%' then KeyRule
    else if CharAt(op, 0) == '&' then ChannelRule
    else if CharAt(op, 0) in {'+', '-'} && CharAt(op, 1) != '@' then CommandRule(LowerAll(op[1..]), op[0] == '+')
    else if CharAt(op, 0) in {'+', '-'} then CategoryRule(LowerAll(op[2..]), op[0] == '+')
    else Unknown
  }

  /** The read and write letters between '%' and '~', and where the pattern starts; None on anything else. */
  function PatternFlags(op: string, i: nat, read: bool, write: bool): (r: Option<(Pattern, nat)>)
    requires i <= |op|
    ensures r.Some? ==> i <= r.value.1 <= |op|
    decreases |op| - i
  {
    if i >= |op| then Some((Pattern(read, write, ""), i))
    else if (op[i] == 'R' || op[i] == 'r') && !read then PatternFlags(op, i + 1, true, write)
    else if (op[i] == 'W' || op[i] == 'w') && !write then PatternFlags(op, i + 1, read, true)
    else if op[i] == '~' then Some((Pattern(read, write, ""), i + 1))
    else None
  }

  /** A pattern that is already listed gains permissions, a new one is appended. */
  function InsertPattern(ps: seq<Pattern>, p: Pattern): seq<Pattern> {
    if ps == [] then [p]
    else if ps[0].text == p.text then [Pattern(ps[0].read || p.read, ps[0].write || p.write, p.text)] + ps[1..]
    else [ps[0]] + InsertPattern(ps[1..], p)
  }

  function ApplyKeyRule(s: Selector, op: string): Option<Selector> {
    if s.allKeys || op == "" then None
    else
      var parsed := if op[0] == '%' then PatternFlags(op, 1, false, false) else Some((Pattern(true, true, ""), 1));
      if parsed.None? || HasSpace(op) then None
      else Some(s.(patterns := InsertPattern(s.patterns, parsed.value.0.(text := op[parsed.value.1..])), allKeys := false))
  }

  function ApplyChannelRule(s: Selector, op: string): Option<Selector> {
    if s.allChannels || op == "" || HasSpace(op) then None
    else Some(s.(channels := if op[1..] in s.channels then s.channels else s.channels + [op[1..]], allChannels := false))
  }

  function ApplyCommandRule(t: Table, s: Selector, name: string, allow: bool): Option<Selector> {
    if '|' !in name then
      if name in t then Some(Change(s, t[name], allow)) else None
    else
      var parts := Split(name, '|');
      if |parts| != 2 || parts[0] !in t then None
      else if t[parts[0]].subs == [] then Some(s)
      else
        var i := SubCmdIndex(t[parts[0]].subs, parts[1]);
        if i < 0 then None else Some(ChangeSub(s, t[parts[0]], i, allow))
  }

  /** The selector after one rule; None when the rule is refused, which changes nothing. */
  function Apply(t: Table, s: Selector, op: string): Option<Selector> {
    match RuleOf(op)
    case AllKeys => Some(s.(allKeys := true, patterns := []))
    case ResetKeys => Some(s.(allKeys := false, patterns := []))
    case AllChannels => Some(s.(allChannels := true, channels := []))
    case ResetChannels => Some(s.(allChannels := false, channels := []))
    case AllCommands => Some(SetAll(t, s))
    case NoCommands => Some(ResetAll(s))
    case KeyRule => ApplyKeyRule(s, op)
    case ChannelRule => ApplyChannelRule(s, op)
    case CommandRule(name, allow) => ApplyCommandRule(t, s, name, allow)
    case CategoryRule(name, allow) =>
      if name in CommandCategories then Some(ChangeCategory(t, t.Keys, s, CommandCategories[name], allow)) else None
    case Unknown => None
  }

  /** The selector after a list of rules that were all accepted. */
  function ApplyAll(t: Table, s: Selector, ops: seq<string>): Option<Selector>
    decreases |ops|
  {
    if ops == [] then Some(s)
    else
      var r := ApplyAll(t, s, ops[..|ops| - 1]);
      if r.None? then None else Apply(t, r.value, ops[|ops| - 1])
  }

  // The command test

  /** The command, or with an index its subcommand, passes the command test. */
  predicate Permitted(s: Selector, cmd: Cmd, index: int) {
    || s.allCommands || cmd.noAuth
    || (if index < 0 then cmd.id in s.allowed else cmd.id in s.subCommand && index in s.subCommand[cmd.id])
  }

  /** The test is on the whole command if it has no subcommands, and on a subcommand if it has. */
  predicate IsTarget(cmd: Cmd, index: int) {
    if cmd.subs == [] then index == -1 else 0 <= index < |cmd.subs|
  }

  /** "cmd" covers the whole command, "cmd|sub" one subcommand. */
  function CommandSays(t: Table, name: string, allow: bool, cmd: Cmd, index: int): (r: Option<bool>)
    ensures r.Some? ==> r.value == allow
  {
    if '|' !in name then
      if name in t && t[name].id == cmd.id then Some(allow) else None
    else
      var parts := Split(name, '|');
      if |parts| == 2 && parts[0] in t && t[parts[0]].id == cmd.id && cmd.subs != []
         && SubCmdIndex(cmd.subs, parts[1]) == index then Some(allow) else None
  }

  /** Whether a rule covers a command or subcommand, and if so whether it allows it. */
  function Says(t: Table, op: string, cmd: Cmd, index: int): Option<bool> {
    match RuleOf(op)
    case AllCommands => Some(true)
    case NoCommands => Some(false)
    case CommandRule(name, allow) => CommandSays(t, name, allow, cmd, index)
    case CategoryRule(name, allow) =>
      if name in CommandCategories && CommandCategories[name] in cmd.categories then Some(allow) else None
    case _ => None
  }

  /** What the last rule that covers the target says; without one it is as it was before them. */
  function LastSays(t: Table, ops: seq<string>, cmd: Cmd, index: int, before: bool): bool
    decreases |ops|
  {
    if ops == [] then before
    else
      var r := Says(t, ops[|ops| - 1], cmd, index);
      if r.Some? then r.value else LastSays(t, ops[..|ops| - 1], cmd, index, before)
  }

  /** The fast-path flags are backed: they hold only where the slow path would agree. */
  ghost predicate Sound(t: Table, s: Selector) {
    && (s.allCommands ==>
          && s.allowed == AllBits()
          && (forall n | n in t && t[n].subs != [] :: t[n].id in s.subCommand && s.subCommand[t[n].id] == FullMask()))
    && (s.allKeys ==> s.patterns == [])
    && (s.allChannels ==> s.channels == [])
  }

  function Fresh(root: bool, pubsubDefault: bool): Selector {
    Selector(root, false, pubsubDefault, false, {}, map[], [], [])
  }

  /** The effect of a change on the flags, and on every target. */
  ghost predicate Decides(t: Table, s: Selector, s': Selector, name: string, index: int, says: Option<bool>) {
    name in t && IsTarget(t[name], index) && !t[name].noAuth ==>
      (Permitted(s', t[name], index) <==> if says.Some? then says.value else Permitted(s, t[name], index))
  }

  lemma {:induction false} ChangeDecides(t: Table, s: Selector, n: string, allow: bool, name: string, index: int)
    requires TableOk(t) && Sound(t, s) && n in t
    ensures Sound(t, Change(s, t[n], allow))
    ensures Decides(t, s, Change(s, t[n], allow), name, index,
                    if name in t && t[n].id == t[name].id then Some(allow) else None)
  {
    hide Below;
  }

  lemma {:induction false} ChangeSubDecides(t: Table, s: Selector, n: string, i: nat, allow: bool, name: string, index: int)
    requires TableOk(t) && Sound(t, s) && n in t && t[n].subs != [] && i < |t[n].subs|
    ensures Sound(t, ChangeSub(s, t[n], i, allow))
    ensures Decides(t, s, ChangeSub(s, t[n], i, allow), name, index,
                    if name in t && t[n].id == t[name].id && index == i then Some(allow) else None)
  {
    hide Below;
  }

  lemma {:induction false} CategorySound(t: Table, s: Selector, category: nat, allow: bool)
    requires TableOk(t) && Sound(t, s)
    ensures Sound(t, ChangeCategory(t, t.Keys, s, category, allow))
  {
    hide Below;
    var ids, withSubs := CategoryIds(t, t.Keys, category), CategoryIdsWithSubs(t, t.Keys, category);
    assert ids <= AllBits() && withSubs <= ids;
    var s' := ChangeCategory(t, t.Keys, s, category, allow);
    assert s'.allCommands ==> s'.allowed == AllBits();
  }

  lemma {:induction false} CategoryDecides(t: Table, s: Selector, category: nat, allow: bool, name: string, index: int)
    requires TableOk(t) && Sound(t, s)
    ensures Decides(t, s, ChangeCategory(t, t.Keys, s, category, allow), name, index,
                    if name in t && category in t[name].categories then Some(allow) else None)
  {
    hide Below;
    var ids, withSubs := CategoryIds(t, t.Keys, category), CategoryIdsWithSubs(t, t.Keys, category);
    if name in t {
      assert t[name].id in ids <==> category in t[name].categories;
      assert t[name].id in withSubs <==> category in t[name].categories && t[name].subs != [];
    }
  }

  lemma {:induction false} AllDecides(t: Table, s: Selector, name: string, index: int)
    requires TableOk(t) && Sound(t, s)
    ensures Sound(t, SetAll(t, s)) && Decides(t, s, SetAll(t, s), name, index, Some(true))
    ensures Sound(t, ResetAll(s)) && Decides(t, s, ResetAll(s), name, index, Some(false))
  {
    hide Below;
  }

  /** Key and channel rules leave the command test alone. */
  /** The fast-path flag is set and cleared with everything else. */
  lemma {:induction false} AllFlags(t: Table, s: Selector, op: string)
    ensures RuleOf(op) == AllCommands ==> Apply(t, s, op).Some? && Apply(t, s, op).value.allCommands
    ensures RuleOf(op) == NoCommands ==> Apply(t, s, op).Some? && !Apply(t, s, op).value.allCommands
  {
    hide RuleOf, WithMask, IdsWithSubs, AllBits, FullMask;
  }

  lemma {:induction false} PatternRuleDecides(t: Table, s: Selector, op: string, name: string, index: int)
    requires Sound(t, s)
    ensures ApplyKeyRule(s, op).Some? ==>
              Sound(t, ApplyKeyRule(s, op).value) && Decides(t, s, ApplyKeyRule(s, op).value, name, index, None)
    ensures ApplyChannelRule(s, op).Some? ==>
              Sound(t, ApplyChannelRule(s, op).value) && Decides(t, s, ApplyChannelRule(s, op).value, name, index, None)
  {
    hide Below, PatternFlags, HasSpace, InsertPattern;
  }

  lemma {:induction false} CommandRuleDecides(t: Table, s: Selector, n: string, allow: bool, name: string, index: int)
    requires TableOk(t) && Sound(t, s) && ApplyCommandRule(t, s, n, allow).Some? && name in t && IsTarget(t[name], index)
    ensures Sound(t, ApplyCommandRule(t, s, n, allow).value)
    ensures Decides(t, s, ApplyCommandRule(t, s, n, allow).value, name, index, CommandSays(t, n, allow, t[name], index))
  {
    hide Change, ChangeSub, Sound, Decides, Split;
    if '|' !in n {
      ChangeDecides(t, s, n, allow, name, index);
    } else {
      var parts := Split(n, '|');
      var subs := t[parts[0]].subs;
      if subs == [] {
        SameDecides(t, s, name, index);
      } else {
        ChangeSubDecides(t, s, parts[0], SubCmdIndex(subs, parts[1]), allow, name, index);
      }
    }
  }

  lemma {:induction false} SameDecides(t: Table, s: Selector, name: string, index: int)
    ensures Decides(t, s, s, name, index, None)
  {
  }

  /** A rule decides the targets it covers and leaves the others as they were. */
  lemma {:induction false} RuleDecides(t: Table, s: Selector, op: string, name: string, index: int)
    requires TableOk(t) && Sound(t, s) && Apply(t, s, op).Some? && name in t && IsTarget(t[name], index)
    ensures Decides(t, s, Apply(t, s, op).value, name, index, Says(t, op, t[name], index))
  {
    hide RuleOf, ApplyCommandRule, ApplyKeyRule, ApplyChannelRule, ChangeCategory, SetAll, ResetAll, CommandSays, Below;
    var r := RuleOf(op);
    if r.CommandRule? {
      CommandRuleDecides(t, s, r.name, r.allow, name, index);
    } else if r.CategoryRule? {
      CategoryDecides(t, s, CommandCategories[r.name], r.allow, name, index);
    } else if r.KeyRule? || r.ChannelRule? {
      PatternRuleDecides(t, s, op, name, index);
    } else {
      AllDecides(t, s, name, index);
    }
  }

  lemma {:induction false} CommandRuleSound(t: Table, s: Selector, n: string, allow: bool)
    requires TableOk(t) && Sound(t, s) && ApplyCommandRule(t, s, n, allow).Some?
    ensures Sound(t, ApplyCommandRule(t, s, n, allow).value)
  {
    hide Change, ChangeSub, Sound, Decides, Split;
    if '|' !in n {
      ChangeDecides(t, s, n, allow, "", -1);
    } else {
      var parts := Split(n, '|');
      var subs := t[parts[0]].subs;
      if subs != [] {
        ChangeSubDecides(t, s, parts[0], SubCmdIndex(subs, parts[1]), allow, "", -1);
      }
    }
  }

  lemma {:induction false} RuleSound(t: Table, s: Selector, op: string)
    requires TableOk(t) && Sound(t, s) && Apply(t, s, op).Some?
    ensures Sound(t, Apply(t, s, op).value)
  {
    hide RuleOf, ApplyCommandRule, ApplyKeyRule, ApplyChannelRule, ChangeCategory, SetAll, ResetAll, Decides;
    var r := RuleOf(op);
    if r.CommandRule? {
      CommandRuleSound(t, s, r.name, r.allow);
    } else if r.CategoryRule? {
      CategorySound(t, s, CommandCategories[r.name], r.allow);
    } else if r.KeyRule? || r.ChannelRule? {
      PatternRuleDecides(t, s, op, "", -1);
    } else {
      AllDecides(t, s, "", -1);
    }
  }

  /** The fast paths are sound in every reachable state. */
  lemma {:induction false} ReachableSound(t: Table, s: Selector, ops: seq<string>)
    requires TableOk(t) && Sound(t, s) && ApplyAll(t, s, ops).Some?
    ensures Sound(t, ApplyAll(t, s, ops).value)
  {
    hide Apply, Sound;
    if ops != [] {
      var n := |ops| - 1;
      ReachableSound(t, s, ops[..n]);
      RuleSound(t, ApplyAll(t, s, ops[..n]).value, ops[n]);
    }
  }

  /**
   The last rule wins: after any accepted rules, a command or subcommand that needs permission passes the
   command test if and only if the last rule that covers it was an allow, or none does and it passed before.
   */
  lemma {:induction false} LastRuleWins(t: Table, s: Selector, ops: seq<string>, name: string, index: int)
    requires TableOk(t) && name in t && IsTarget(t[name], index) && !t[name].noAuth
    requires Sound(t, s) && ApplyAll(t, s, ops).Some?
    ensures Permitted(ApplyAll(t, s, ops).value, t[name], index)
            <==> LastSays(t, ops, t[name], index, Permitted(s, t[name], index))
  {
    hide Apply, Says, Sound, Permitted;
    if ops != [] {
      var n := |ops| - 1;
      LastRuleWins(t, s, ops[..n], name, index);
      ReachableSound(t, s, ops[..n]);
      RuleDecides(t, ApplyAll(t, s, ops[..n]).value, ops[n], name, index);
    }
  }

  // The selector as it is updated in place

  class AclSelector {
    var root: bool
    var allKeys: bool
    var allChannels: bool
    var allCommands: bool
    var allowed: set<nat>
    var subCommand: map<nat, set<nat>>
    var patterns: seq<Pattern>
    var channels: seq<string>

    ghost function Value(): Selector
      reads this
    {
      Selector(root, allKeys, allChannels, allCommands, allowed, subCommand, patterns, channels)
    }

    constructor (root: bool, pubsubDefault: bool)
      ensures Value() == Fresh(root, pubsubDefault)
    {
      this.root, allKeys, allChannels, allCommands := root, false, pubsubDefault, false;
      allowed, subCommand, patterns, channels := {}, map[], [], [];
    }

    method ChangeSelector(cmd: Cmd, allow: bool)
      modifies this
      ensures Value() == Change(old(Value()), cmd, allow)
    {
      if allow {
        allowed := allowed + {cmd.id};
        if cmd.subs != [] {
          subCommand := subCommand[cmd.id := FullMask()];
        }
      } else {
        allowed := allowed - {cmd.id};
        allCommands := false;
        if cmd.subs != [] {
          subCommand := subCommand[cmd.id := {}];
        }
      }
    }

    method ChangeSubCommand(cmd: Cmd, name: string, allow: bool) returns (ok: bool)
      modifies this
      ensures ok <==> cmd.subs == [] || SubCmdIndex(cmd.subs, name) >= 0
      ensures Value() == if ok && cmd.subs != [] then ChangeSub(old(Value()), cmd, SubCmdIndex(cmd.subs, name), allow)
                         else old(Value())
    {
      if cmd.subs != [] {
        var index := SubCmdIndex(cmd.subs, name);
        if index == -1 {
          return false;
        }
        var mask := if cmd.id in subCommand then subCommand[cmd.id] else {};
        if allow {
          subCommand := subCommand[cmd.id := mask + {index}];
        } else {
          allCommands := false;
          subCommand := subCommand[cmd.id := mask - {index}];
        }
      }
      return true;
    }

    /** Visits every command of the table, in no particular order. */
    method ChangeAllInCategory(t: Table, category: nat, allow: bool)
      modifies this
      ensures Value() == ChangeCategory(t, t.Keys, old(Value()), category, allow)
    {
      hide Below;
      ghost var done: set<string> := {};
      var left := t.Keys;
      NoneInCategory(t, old(Value()), category, allow);
      while left != {}
        invariant left <= t.Keys && done == t.Keys - left
        invariant Value() == ChangeCategory(t, done, old(Value()), category, allow)
        decreases left
      {
        var n :| n in left;
        OneMoreInCategory(t, done, n, old(Value()), category, allow);
        if category in t[n].categories {
          ChangeSelector(t[n], allow);
        }
        left := left - {n};
        done := done + {n};
      }
      assert done == t.Keys;
    }

    method SetAllCommandSelector(t: Table)
      modifies this
      ensures Value() == SetAll(t, old(Value()))
    {
      hide FullMask, AllBits, WithMask, IdsWithSubs;
      allCommands := true;
      allowed := AllBits();
      ghost var done: set<string> := {};
      var left := t.Keys;
      NoMasks(t, subCommand);
      while left != {}
        invariant left <= t.Keys && done == t.Keys - left
        invariant Value() == old(Value()).(allCommands := true, allowed := AllBits(), subCommand := subCommand)
        invariant subCommand == WithMask(old(subCommand), IdsWithSubs(t, done), FullMask())
        decreases left
      {
        var n :| n in left;
        if t[n].subs != [] {
          subCommand := subCommand[t[n].id := FullMask()];
        }
        OneMoreWithSubs(t, done, n);
        MaskOneMore(old(subCommand), IdsWithSubs(t, done), t[n].id, FullMask());
        left := left - {n};
        done := done + {n};
      }
      assert done == t.Keys;
    }

    method InsertKeyPattern(p: Pattern)
      modifies this
      ensures Value() == old(Value()).(patterns := InsertPattern(old(patterns), p))
    {
      hide InsertPattern;
      var i := 0;
      NotListedYet(patterns, p, 0);
      while i < |patterns|
        invariant 0 <= i <= |patterns| && Value() == old(Value())
        invariant InsertPattern(patterns, p) == patterns[..i] + InsertPattern(patterns[i..], p)
      {
        NotListedYet(patterns, p, i);
        if patterns[i].text == p.text {
          patterns := patterns[i := Pattern(patterns[i].read || p.read, patterns[i].write || p.write, p.text)];
          return;
        }
        i := i + 1;
      }
      NotListedYet(patterns, p, |patterns|);
      patterns := patterns + [p];
    }

    method SetCommandOp(t: Table, name: string, allow: bool) returns (ok: bool)
      modifies this
      ensures ApplyCommandRule(t, old(Value()), name, allow) == if ok then Some(Value()) else None
      ensures !ok ==> Value() == old(Value())
    {
      hide Split, Change, ChangeSub, SubCmdIndex;
      if '|' !in name {
        if name !in t {
          return false;
        }
        ChangeSelector(t[name], allow);
        return true;
      }
      var parts := Split(name, '|');
      if |parts| != 2 || parts[0] !in t {
        return false;
      }
      ok := ChangeSubCommand(t[parts[0]], parts[1], allow);
    }

    /** One rule, by its first characters; a refused rule changes nothing. */
    method SetSelector(t: Table, op: string) returns (ok: bool)
      modifies this
      ensures Apply(t, old(Value()), op) == if ok then Some(Value()) else None
      ensures !ok ==> Value() == old(Value())
    {
      hide LowerAll, SameIgnoringCase, ApplyCommandRule, ApplyKeyRule, ApplyChannelRule, ChangeCategory, SetAll;
      if SameIgnoringCase(op, "allkeys") || op == "~*" {
        allKeys, patterns := true, [];
      } else if SameIgnoringCase(op, "resetkeys") {
        allKeys, patterns := false, [];
      } else if SameIgnoringCase(op, "allchannels") || SameIgnoringCase(op, "&*") {
        allChannels, channels := true, [];
      } else if SameIgnoringCase(op, "resetchannels") {
        allChannels, channels := false, [];
      } else if SameIgnoringCase(op, "allcommands") || SameIgnoringCase(op, "+@all") {
        SetAllCommandSelector(t);
      } else if SameIgnoringCase(op, "nocommands") || SameIgnoringCase(op, "-@all") {
        allCommands, allowed, subCommand := false, {}, map[];
      } else if CharAt(op, 0) == '~' || CharAt(op, 0) == '%' {
        ok := SetKeyOp(op);
        return;
      } else if CharAt(op, 0) == '&' {
        ok := SetChannelOp(op);
        return;
      } else if CharAt(op, 0) in {'+', '-'} && CharAt(op, 1) != '@' {
        ok := SetCommandOp(t, LowerAll(op[1..]), op[0] == '+');
        return;
      } else if CharAt(op, 0) in {'+', '-'} {
        var category := LowerAll(op[2..]);
        if category !in CommandCategories {
          return false;
        }
        ChangeAllInCategory(t, CommandCategories[category], op[0] == '+');
      } else {
        return false;
      }
      return true;
    }

    method SetChannelOp(op: string) returns (ok: bool)
      requires CharAt(op, 0) == '&'
      modifies this
      ensures ApplyChannelRule(old(Value()), op) == if ok then Some(Value()) else None
      ensures !ok ==> Value() == old(Value())
    {
      hide HasSpace;
      if allChannels || HasSpace(op) {
        return false;
      }
      if op[1..] !in channels {
        channels := channels + [op[1..]];
      }
      allChannels := false;
      return true;
    }

    method SetKeyOp(op: string) returns (ok: bool)
      requires CharAt(op, 0) == '~' || CharAt(op, 0) == '%'
      modifies this
      ensures ApplyKeyRule(old(Value()), op) == if ok then Some(Value()) else None
      ensures !ok ==> Value() == old(Value())
    {
      hide HasSpace, InsertPattern;
      if allKeys {
        return false;
      }
      var read, write, offset := true, true, 1;
      if op[0] == '%' {
        read, write := false, false;
        ghost var parsed := PatternFlags(op, 1, false, false);
        while offset < |op|
          invariant 1 <= offset <= |op|
          invariant PatternFlags(op, offset, read, write) == parsed
          decreases |op| - offset
        {
          if (op[offset] == 'R' || op[offset] == 'r') && !read {
            read := true;
          } else if (op[offset] == 'W' || op[offset] == 'w') && !write {
            write := true;
          } else if op[offset] == '~' {
            offset := offset + 1;
            assert parsed == Some((Pattern(read, write, ""), offset));
            break;
          } else {
            return false;
          }
          offset := offset + 1;
        }
        assert parsed == Some((Pattern(read, write, ""), offset));
      }
      if HasSpace(op) {
        return false;
      }
      InsertKeyPattern(Pattern(read, write, op[offset..]));
      allKeys := false;
      return true;
    }

    /** The command part of the permission test; index -1 stands for a command without subcommands. */
    method CheckCommand(cmd: Cmd, index: int) returns (ok: bool)
      ensures ok <==> Permitted(Value(), cmd, index)
    {
      if !allCommands && !cmd.noAuth {
        if index < 0 {
          if cmd.id !in allowed {
            return false;
          }
        } else {
          if cmd.id !in subCommand || index !in subCommand[cmd.id] {
            return false;
          }
        }
      }
      return true;
    }
  }

  function IdsWithSubs(t: Table, names: set<string>): set<nat> {
    set n | n in names && n in t && t[n].subs != [] :: t[n].id
  }

  lemma {:induction false} NoneInCategory(t: Table, s: Selector, category: nat, allow: bool)
    ensures ChangeCategory(t, {}, s, category, allow) == s
  {
  }

  /** One more command visited. */
  lemma {:induction false} OneMoreInCategory(t: Table, names: set<string>, n: string, s: Selector, category: nat, allow: bool)
    requires n in t
    ensures ChangeCategory(t, names + {n}, s, category, allow)
         == if category in t[n].categories then Change(ChangeCategory(t, names, s, category, allow), t[n], allow)
            else ChangeCategory(t, names, s, category, allow)
  {
    hide FullMask, WithMask, CategoryIds, CategoryIdsWithSubs;
    OneMoreCategoryId(t, names, n, category);
    MaskOneMore(s.subCommand, CategoryIdsWithSubs(t, names, category), t[n].id, if allow then FullMask() else {});
  }

  lemma {:induction false} OneMoreCategoryId(t: Table, names: set<string>, n: string, category: nat)
    requires n in t
    ensures var inIt := category in t[n].categories;
            && CategoryIds(t, names + {n}, category) == CategoryIds(t, names, category) + (if inIt then {t[n].id} else {})
            && CategoryIdsWithSubs(t, names + {n}, category)
               == CategoryIdsWithSubs(t, names, category) + (if inIt && t[n].subs != [] then {t[n].id} else {})
  {
  }

  lemma {:induction false} OneMoreWithSubs(t: Table, names: set<string>, n: string)
    requires n in t
    ensures IdsWithSubs(t, names + {n}) == IdsWithSubs(t, names) + if t[n].subs != [] then {t[n].id} else {}
  {
  }

  lemma {:induction false} MaskOneMore(m: map<nat, set<nat>>, ids: set<nat>, id: nat, mask: set<nat>)
    ensures WithMask(m, ids + {id}, mask) == WithMask(m, ids, mask)[id := mask]
    ensures WithMask(m, ids + {}, mask) == WithMask(m, ids, mask)
  {
    assert ids + {} == ids;
  }

  lemma {:induction false} NoMasks(t: Table, m: map<nat, set<nat>>)
    ensures IdsWithSubs(t, {}) == {} && WithMask(m, {}, FullMask()) == m
  {
  }

  lemma {:induction false} NotListedYet(ps: seq<Pattern>, p: Pattern, i: nat)
    requires i <= |ps|
    ensures i == |ps| ==> InsertPattern(ps[i..], p) == [p]
    ensures i == 0 ==> InsertPattern(ps, p) == ps[..i] + InsertPattern(ps[i..], p)
    ensures i < |ps| && ps[i].text == p.text ==>
              ps[..i] + InsertPattern(ps[i..], p)
              == ps[i := Pattern(ps[i].read || p.read, ps[i].write || p.write, p.text)]
    ensures i < |ps| && ps[i].text != p.text ==>
              ps[..i] + InsertPattern(ps[i..], p) == ps[..i + 1] + InsertPattern(ps[i + 1..], p)
  {
    assert ps[0..] == ps;
    if i < |ps| {
      assert ps[i..][0] == ps[i] && ps[i..][1..] == ps[i + 1..];
    }
  }

  // A selector from its rules to its test

  lemma {:induction false} OneRuleMore(t: Table, s: Selector, ops: seq<string>, i: nat)
    requires i < |ops| && ApplyAll(t, s, ops[..i]).Some?
    ensures ApplyAll(t, s, ops[..i + 1]) == Apply(t, ApplyAll(t, s, ops[..i]).value, ops[i])
  {
    hide Apply;
    assert ops[..i + 1][..i] == ops[..i];
  }

  lemma {:induction false} RefusedStays(t: Table, s: Selector, ops: seq<string>, i: nat)
    requires i <= |ops| && ApplyAll(t, s, ops[..i]).None?
    ensures ApplyAll(t, s, ops).None?
    decreases |ops| - i
  {
    hide Apply;
    if i == |ops| {
      assert ops[..i] == ops;
    } else {
      assert ops[..i + 1][..i] == ops[..i];
      RefusedStays(t, s, ops, i + 1);
    }
  }

  lemma {:induction false} NewSelector(t: Table, root: bool, pubsubDefault: bool, cmd: Cmd, index: int)
    requires !cmd.noAuth
    ensures Sound(t, Fresh(root, pubsubDefault)) && !Permitted(Fresh(root, pubsubDefault), cmd, index)
  {
  }
}
