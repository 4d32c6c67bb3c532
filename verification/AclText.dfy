/**
 Rules as texts: which texts cover which commands and how, read off the characters alone, and that the
 parser of the selectors takes them so.
 */
module AclText {
  import opened Acl
  import opened Wrappers

  // Pieces between bars

  function Bars(n: nat): (s: string)
    ensures |s| == n
  {
    seq(n, _ => '|')
  }

  predicate IsPiece(s: string) {
    s != "" && '|' !in s
  }

  /** Two pieces with bars between them, and maybe around them. */
  ghost predicate IsPair(s: string, a: string, b: string) {
    IsPiece(a) && IsPiece(b) && exists i: nat, j: nat, k: nat :: j > 0 && s == Paired(i, a, j, b, k)
  }

  function Paired(i: nat, a: string, j: nat, b: string, k: nat): string {
    Bars(i) + (a + (Bars(j) + (b + Bars(k))))
  }

  lemma {:induction false} SplitSkips(n: nat, s: string)
    ensures Split(Bars(n) + s, '|') == Split(s, '|')
  {
    if n == 0 {
      assert Bars(0) + s == s;
    } else {
      assert (Bars(n) + s)[1..] == Bars(n - 1) + s;
      SplitSkips(n - 1, s);
    }
  }

  lemma {:induction false} SplitTakes(piece: string, a: string, s: string)
    requires '|' !in a && piece + a != "" && (s == "" || s[0] == '|')
    ensures SplitFrom(a + s, '|', piece) == [piece + a] + Split(s, '|')
    decreases |a|
  {
    if a == "" {
      assert a + s == s && piece + a == piece;
      if s != "" { assert Bars(1) + s[1..] == s; SplitSkips(1, s[1..]); }
    } else {
      assert (a + s)[1..] == a[1..] + s && piece + [a[0]] + a[1..] == piece + a;
      SplitTakes(piece + [a[0]], a[1..], s);
    }
  }

  lemma {:induction false} LeadingBars(s: string) returns (n: nat)
    ensures n <= |s| && s == Bars(n) + s[n..] && (n == |s| || s[n] != '|')
  {
    if s == "" || s[0] != '|' {
      n := 0;
    } else {
      n := LeadingBars(s[1..]);
      assert Bars(n + 1) == ['|'] + Bars(n) && s[1..][n..] == s[n + 1..];
      n := n + 1;
    }
  }

  lemma {:induction false} LeadingPiece(s: string) returns (n: nat)
    ensures n <= |s| && '|' !in s[..n] && (n == |s| || s[n] == '|')
  {
    if s == "" || s[0] == '|' {
      n := 0;
    } else {
      n := LeadingPiece(s[1..]);
      assert s[..n + 1] == [s[0]] + s[1..][..n];
      n := n + 1;
    }
  }

  /** What comes before the first piece, the piece, and the rest. */
  lemma {:induction false} FirstPiece(s: string) returns (n: nat, a: string, rest: string)
    ensures s == Bars(n) + (a + rest) && '|' !in a && (rest == "" || rest[0] == '|')
    ensures a == "" ==> rest == ""
    ensures Split(s, '|') == if a == "" then [] else [a] + Split(rest, '|')
  {
    hide SplitFrom;
    n := LeadingBars(s);
    var x := s[n..];
    var i := LeadingPiece(x);
    a, rest := x[..i], x[i..];
    assert x == a + rest;
    SplitSkips(n, x);
    if a == "" {
      NoPieces();
    } else {
      SplitTakes("", a, rest);
      assert "" + a == a;
    }
  }

  lemma {:induction false} NoPieces()
    ensures Split("", '|') == []
  {
  }

  lemma {:induction false} SameHead(x: string, xs: seq<string>, y: string, ys: seq<string>)
    requires [x] + xs == [y] + ys
    ensures x == y && xs == ys
  {
    assert ([x] + xs)[0] == x && ([x] + xs)[1..] == xs && ([y] + ys)[0] == y && ([y] + ys)[1..] == ys;
  }

  lemma {:induction false} SplitPair(s: string, a: string, b: string)
    ensures Split(s, '|') == [a, b] <==> IsPair(s, a, b)
  {
    hide Split;
    if IsPair(s, a, b) {
      var i: nat, j: nat, k: nat :| j > 0 && s == Paired(i, a, j, b, k);
      PairSplits(i, a, j, b, k);
    }
    if Split(s, '|') == [a, b] {
      var i, x, r := FirstPiece(s);
      assert [a, b] == [a] + [b];
      SameHead(x, Split(r, '|'), a, [b]);
      var j, y, q := FirstPiece(r);
      assert [b] == [b] + [];
      SameHead(y, Split(q, '|'), b, []);
      var k, z, p := FirstPiece(q);
      assert j > 0;
      assert Bars(k) + (z + p) == Bars(k);
      assert s == Paired(i, a, j, b, k);
    }
  }

  lemma {:induction false} PairSplits(i: nat, a: string, j: nat, b: string, k: nat)
    requires IsPiece(a) && IsPiece(b) && j > 0
    ensures Split(Paired(i, a, j, b, k), '|') == [a, b]
  {
    var last := b + Bars(k);
    var rest := Bars(j) + last;
    SplitSkips(i, a + rest);
    SplitTakes("", a, rest);
    SplitSkips(j, last);
    SplitTakes("", b, Bars(k));
    SplitSkips(k, "");
    assert Bars(k) + "" == Bars(k) && "" + a == a && "" + b == b;
  }

  // Which texts cover a command

  function Sign(allow: bool): string {
    if allow then "+" else "-"
  }

  /** The index is that of the first subcommand with this name. */
  predicate FirstNamed(subs: seq<string>, sub: string, index: int) {
    && 0 <= index < |subs| && SameIgnoringCase(subs[index], sub)
    && forall j | 0 <= j < index :: !SameIgnoringCase(subs[j], sub)
  }

  predicate ForAll(l: string, allow: bool) {
    l == (if allow then "allcommands" else "nocommands") || l == Sign(allow) + "@all"
  }

  predicate ForCategory(l: string, allow: bool, category: string) {
    category in CommandCategories && l == Sign(allow) + "@" + category
  }

  predicate ForCommand(l: string, allow: bool, name: string) {
    '|' !in name && (name == "" || name[0] != '@') && l == Sign(allow) + name
  }

  ghost predicate ForSubcommand(l: string, allow: bool, name: string, sub: string) {
    |l| > 1 && l[0] == Sign(allow)[0] && l[1] != '@' && IsPair(l[1..], name, sub)
  }

  /** A text, whatever the case of its letters, covers a command or subcommand and allows or forbids it. */
  ghost predicate Covers(t: Table, text: string, allow: bool, name: string, index: int)
    requires name in t
  {
    var l := LowerAll(text);
    || ForAll(l, allow)
    || (exists c :: ForCategory(l, allow, c) && CommandCategories[c] in t[name].categories)
    || ForCommand(l, allow, name)
    || (exists sub :: ForSubcommand(l, allow, name, sub) && FirstNamed(t[name].subs, sub, index))
  }

  // Which texts are for keys and channels

  /** The letters between the percent sign and the tilde, or the end. */
  ghost predicate HasPerms(op: string, q: string) {
    && q in {"", "r", "w", "rw", "wr"} && 1 + |q| <= |op| && LowerAll(op[1..1 + |q|]) == q
    && (|op| == 1 + |q| || op[1 + |q|] == '~')
  }

  /** A text for keys: the pattern that it gives, with its permissions. */
  ghost predicate KeyText(op: string, p: Pattern) {
    && op != "" && !HasSpace(op)
    && (|| (op[0] == '~' && p == Pattern(true, true, op[1..]))
        || (op[0] == '%' && exists q :: HasPerms(op, q) && p == PermsPattern(op, q)))
  }

  ghost function PermsPattern(op: string, q: string): Pattern
    requires HasPerms(op, q)
  {
    Pattern('r' in q, 'w' in q, if |op| == 1 + |q| then "" else op[2 + |q|..])
  }

  predicate AllKeysText(op: string) {
    LowerAll(op) == "allkeys" || op == "~*"
  }

  predicate AllChannelsText(op: string) {
    LowerAll(op) == "allchannels" || LowerAll(op) == "&*"
  }

  predicate Has(p: Pattern, text: string, write: bool) {
    p.text == text && if write then p.write else p.read
  }

  predicate Listed(ps: seq<Pattern>, text: string, write: bool) {
    exists p | p in ps :: Has(p, text, write)
  }

  // What texts give and take away

  /** What may hold of a selector or a user. */
  datatype Fact =
    | Allowed(t: Table, name: string, index: int)
    | AllKeysHeld | KeyHeld(text: string, write: bool)
    | AllChannelsHeld | ChannelHeld(text: string)
    | Enabled | NoPassword | Password(sha256: string -> string, digest: string)

  /** The texts that make a fact hold, and those that end it. */
  ghost predicate TurnsOn(f: Fact, op: string) {
    match f
    case Allowed(t, name, index) => name in t && Covers(t, op, true, name, index)
    case AllKeysHeld => AllKeysText(op)
    case KeyHeld(text, write) => op != "~*" && exists p :: KeyText(op, p) && Has(p, text, write)
    case AllChannelsHeld => AllChannelsText(op)
    case ChannelHeld(text) => op != "" && op[0] == '&' && op != "&*" && op[1..] == text
    case Enabled => LowerAll(op) == "on"
    case NoPassword => LowerAll(op) == "nopass"
    case Password(sha256, digest) =>
      op != "" && ((op[0] == '>' && sha256(op[1..]) == digest) || (op[0] == '#' && op[1..] == digest))
  }

  ghost predicate TurnsOff(f: Fact, op: string) {
    match f
    case Allowed(t, name, index) => name in t && Covers(t, op, false, name, index)
    case AllKeysHeld => LowerAll(op) == "resetkeys"
    case KeyHeld(_, _) => LowerAll(op) == "resetkeys" || AllKeysText(op)
    case AllChannelsHeld => LowerAll(op) == "resetchannels"
    case ChannelHeld(_) => LowerAll(op) == "resetchannels" || AllChannelsText(op)
    case Enabled => LowerAll(op) == "off"
    case NoPassword => LowerAll(op) == "resetpass" || (op != "" && op[0] in {'>', '#'})
    case Password(sha256, digest) =>
      || LowerAll(op) in {"nopass", "resetpass"}
      || (op != "" && ((op[0] == '<' && sha256(op[1..]) == digest) || (op[0] == '!' && op[1..] == digest)))
  }

  /** Some text makes the fact hold, and none after it ends it. */
  ghost predicate Since(f: Fact, ops: seq<string>) {
    exists i | 0 <= i < |ops| :: TurnsOn(f, ops[i]) && forall j | i < j < |ops| :: !TurnsOff(f, ops[j])
  }

  lemma {:induction false} SinceLast(f: Fact, ops: seq<string>)
    requires ops != []
    ensures var n := |ops| - 1;
            Since(f, ops) <==> TurnsOn(f, ops[n]) || (Since(f, ops[..n]) && !TurnsOff(f, ops[n]))
  {
    hide TurnsOn, TurnsOff;
    var n := |ops| - 1;
    if Since(f, ops[..n]) && !TurnsOff(f, ops[n]) {
      var i :| 0 <= i < n && TurnsOn(f, ops[..n][i]) && forall j | i < j < n :: !TurnsOff(f, ops[..n][j]);
      forall j | i < j < |ops|
        ensures !TurnsOff(f, ops[j])
      {
        if j < n { assert ops[..n][j] == ops[j]; }
      }
      assert TurnsOn(f, ops[i]);
    }
    if Since(f, ops) && !TurnsOn(f, ops[n]) {
      var i :| 0 <= i < |ops| && TurnsOn(f, ops[i]) && forall j | i < j < |ops| :: !TurnsOff(f, ops[j]);
      assert ops[..n][i] == ops[i];
    }
  }

  lemma {:induction false} NothingSince(f: Fact)
    ensures !Since(f, [])
  {
  }

  /** Some text allows the target, and none after it forbids it. */
  ghost predicate LastAllows(t: Table, ops: seq<string>, name: string, index: int) {
    Since(Allowed(t, name, index), ops)
  }

  // The parser

  /** The characters that make a rule what it is; they have no case. */
  predicate IsMark(c: char) {
    c in {'+', '-', '@', '~', '%', '&', '|'}
  }

  lemma {:induction false} MarksHaveNoCase(c: char)
    ensures IsMark(c) || IsMark(Lower(c)) ==> Lower(c) == c
  {
  }

  /** Lower case: 26 letters change, and nothing else does. */
  lemma {:induction false} LowerLetters(c: char)
    ensures LowerAll("ABCDEFGHIJKLMNOPQRSTUVWXYZ") == "abcdefghijklmnopqrstuvwxyz"
    ensures c !in "ABCDEFGHIJKLMNOPQRSTUVWXYZ" ==> Lower(c) == c
  {
    if 'A' <= c <= 'Z' {
      var i := c as int - 'A' as int;
      assert "ABCDEFGHIJKLMNOPQRSTUVWXYZ"[i] == c;
    }
  }

  /** The six characters that count as space. */
  lemma {:induction false} SpaceCharacters(s: string)
    ensures HasSpace(s) <==> exists i | 0 <= i < |s| :: s[i] as int in {9, 10, 11, 12, 13, 32}
  {
    if HasSpace(s) {
      var c :| c in s && c in {' ', '\t', '\n', '\r', '\U{0b}', '\U{0c}'};
      var i :| 0 <= i < |s| && s[i] == c;
      assert s[i] as int in {9, 10, 11, 12, 13, 32};
    }
    if i :| 0 <= i < |s| && s[i] as int in {9, 10, 11, 12, 13, 32} {
      assert s[i] in s && s[i] in {' ', '\t', '\n', '\r', '\U{0b}', '\U{0c}'};
    }
  }

  /** The words, in lower case already. */
  lemma {:induction false} WordsAreLower()
    ensures LowerAll("allkeys") == "allkeys" && LowerAll("resetkeys") == "resetkeys"
    ensures LowerAll("allchannels") == "allchannels" && LowerAll("&*") == "&*" && LowerAll("resetchannels") == "resetchannels"
    ensures LowerAll("allcommands") == "allcommands" && LowerAll("+@all") == "+@all"
    ensures LowerAll("nocommands") == "nocommands" && LowerAll("-@all") == "-@all"
    ensures !IsMark("allkeys"[0]) && !IsMark("resetkeys"[0]) && !IsMark("allchannels"[0]) && !IsMark("resetchannels"[0])
    ensures !IsMark("allcommands"[0]) && !IsMark("nocommands"[0]) && "&*"[0] == '&' && "~*"[0] == '~'
  {
  }

  lemma {:induction false} LowerParts(op: string)
    ensures var l := LowerAll(op);
            && |l| == |op|
            && (|op| > 0 ==> LowerAll(op[1..]) == l[1..])
            && (|op| > 1 ==> LowerAll(op[2..]) == l[2..])
            && (forall i | 0 <= i < |op| :: IsMark(op[i]) || IsMark(l[i]) ==> l[i] == op[i])
  {
    forall i | 0 <= i < |op|
      ensures IsMark(op[i]) || IsMark(Lower(op[i])) ==> Lower(op[i]) == op[i]
    {
      MarksHaveNoCase(op[i]);
    }
  }

  /** A sign, a category's mark, and "all" after them. */
  lemma {:induction false} AllAfterMark(l: string, sign: char)
    requires sign in {'+', '-'}
    ensures l == [sign] + "@all" <==> |l| > 1 && l[0] == sign && l[1] == '@' && l[2..] == "all"
  {
    if |l| > 1 {
      assert l == [l[0], l[1]] + l[2..];
    }
  }

  /** The rule of a text, read off its lower-case form. */
  lemma {:induction false} RuleOfText(op: string)
    ensures var l := LowerAll(op);
            && (RuleOf(op) == AllCommands <==> ForAll(l, true))
            && (RuleOf(op) == NoCommands <==> ForAll(l, false))
            && (RuleOf(op).CommandRule? <==> |l| > 0 && l[0] in {'+', '-'} && (|l| > 1 ==> l[1] != '@'))
            && (RuleOf(op).CommandRule? ==> RuleOf(op) == CommandRule(l[1..], l[0] == '+'))
            && (RuleOf(op).CategoryRule? <==> |l| > 1 && l[0] in {'+', '-'} && l[1] == '@' && l[2..] != "all")
            && (RuleOf(op).CategoryRule? ==> RuleOf(op) == CategoryRule(l[2..], l[0] == '+'))
  {
    hide LowerAll, Lower;
    var l := LowerAll(op);
    WordsAreLower();
    LowerParts(op);
    AllAfterMark(l, '+');
    AllAfterMark(l, '-');
    assert ['+'] + "@all" == "+@all" == Sign(true) + "@all" && ['-'] + "@all" == "-@all" == Sign(false) + "@all";
  }

  lemma {:induction false} AllIsNoCategory()
    ensures "all" !in CommandCategories
  {
    assert |"all"| == 3 && "all"[0] == 'a' && "geo"[0] == 'g' && "set"[0] == 's';
  }

  lemma {:induction false} CategoryText(l: string, allow: bool, category: string)
    ensures ForCategory(l, allow, category) <==>
              category in CommandCategories && |l| > 1 && l[0] == Sign(allow)[0] && l[1] == '@' && l[2..] == category
  {
    if |l| > 1 {
      assert l == [l[0], l[1]] + l[2..];
    }
  }

  lemma {:induction false} CommandText(l: string, allow: bool, name: string)
    ensures ForCommand(l, allow, name) <==>
              '|' !in name && |l| > 0 && l[0] == Sign(allow)[0] && l[1..] == name && (|l| > 1 ==> l[1] != '@')
  {
    if |l| > 0 {
      assert l == [l[0]] + l[1..];
    }
  }

  lemma {:induction false} SubcommandText(l: string, allow: bool, name: string, sub: string)
    ensures ForSubcommand(l, allow, name, sub) <==>
              |l| > 1 && l[0] == Sign(allow)[0] && l[1] != '@' && '|' in l[1..] && Split(l[1..], '|') == [name, sub]
  {
    hide Split;
    if |l| > 1 {
      SplitPair(l[1..], name, sub);
      if IsPair(l[1..], name, sub) {
        var i: nat, j: nat, k: nat :| j > 0 && l[1..] == Paired(i, name, j, sub, k);
        assert l[1..][i + |name|] == '|';
      }
    }
  }

  /** What a command rule says of a target. */
  lemma {:induction false} CommandSaysText(t: Table, l: string, allow: bool, name: string, index: int)
    requires TableOk(t) && name in t && IsTarget(t[name], index)
    requires |l| > 0 && l[0] == Sign(allow)[0] && (|l| > 1 ==> l[1] != '@')
    ensures CommandSays(t, l[1..], allow, t[name], index) == Some(allow) <==>
              || ForCommand(l, allow, name)
              || exists sub :: ForSubcommand(l, allow, name, sub) && FirstNamed(t[name].subs, sub, index)
  {
    hide Split, IsPair, SubCmdIndex, SameIgnoringCase;
    CommandText(l, allow, name);
    var parts := Split(l[1..], '|');
    forall sub
      ensures ForSubcommand(l, allow, name, sub) <==> '|' in l[1..] && parts == [name, sub]
    {
      SubcommandText(l, allow, name, sub);
    }
    if '|' in l[1..] && |parts| == 2 {
      assert parts == [parts[0], parts[1]];
      assert t[name].subs != [] ==> (SubCmdIndex(t[name].subs, parts[1]) == index <==> FirstNamed(t[name].subs, parts[1], index));
    }
  }

  /** Every text says of every target what its characters say, and any other text says nothing. */
  lemma {:induction false} SaysExact(t: Table, op: string, allow: bool, name: string, index: int)
    requires TableOk(t) && name in t && IsTarget(t[name], index)
    ensures Says(t, op, t[name], index) == Some(allow) <==> Covers(t, op, allow, name, index)
  {
    hide RuleOf, CommandSays, LowerAll, FirstNamed, IsPair, TableOk, IsTarget;
    var l := LowerAll(op);
    RuleOfText(op);
    WordsAreLower();
    AllIsNoCategory();
    CommandText(l, allow, name);
    forall c
      ensures ForCategory(l, allow, c) <==>
                c in CommandCategories && |l| > 1 && l[0] == Sign(allow)[0] && l[1] == '@' && l[2..] == c
    {
      CategoryText(l, allow, c);
    }
    AllAfterMark(l, Sign(allow)[0]);
    if RuleOf(op).CommandRule? && RuleOf(op).allow == allow {
      CommandSaysText(t, l, allow, name, index);
    }
  }

  lemma {:induction false} LastSaysExact(t: Table, ops: seq<string>, name: string, index: int)
    requires TableOk(t) && name in t && IsTarget(t[name], index)
    ensures LastSays(t, ops, t[name], index, false) <==> LastAllows(t, ops, name, index)
  {
    hide Says, Covers, TableOk, IsTarget, Since;
    var f := Allowed(t, name, index);
    if ops == [] {
      NothingSince(f);
    } else {
      var n := |ops| - 1;
      SaysExact(t, ops[n], true, name, index);
      SaysExact(t, ops[n], false, name, index);
      LastSaysExact(t, ops[..n], name, index);
      SinceLast(f, ops);
    }
  }

  /** A new selector, given rules up to the first that is refused, answers the command test as the last covering text says. */
  method RulesThenCheck(t: Table, root: bool, pubsubDefault: bool, ops: seq<string>, name: string, index: int)
    returns (accepted: bool, permitted: bool)
    requires TableOk(t) && name in t && IsTarget(t[name], index) && !t[name].noAuth
    ensures accepted <==> ApplyAll(t, Fresh(root, pubsubDefault), ops).Some?
    ensures if accepted then permitted <==> LastAllows(t, ops, name, index) else !permitted
  {
    hide Apply, Sound, LastSays, Permitted, LastAllows;
    ghost var s := Fresh(root, pubsubDefault);
    var selector := new AclSelector(root, pubsubDefault);
    permitted := false;
    for i := 0 to |ops|
      invariant ApplyAll(t, s, ops[..i]) == Some(selector.Value())
    {
      OneRuleMore(t, s, ops, i);
      accepted := selector.SetSelector(t, ops[i]);
      if !accepted {
        RefusedStays(t, s, ops, i + 1);
        return;
      }
    }
    assert ops[..|ops|] == ops;
    accepted := true;
    permitted := selector.CheckCommand(t[name], index);
    NewSelector(t, root, pubsubDefault, t[name], index);
    LastRuleWins(t, s, ops, name, index);
    LastSaysExact(t, ops, name, index);
  }

  // Particular texts

  lemma {:induction false} LowerConcat(a: string, b: string)
    ensures LowerAll(a + b) == LowerAll(a) + LowerAll(b)
  {
  }

  /** The two words and the two marks for all commands. */
  lemma {:induction false} AllTexts(t: Table, text: string, allow: bool, name: string, index: int)
    requires name in t && text in {"+@all", "-@all", "allcommands", "nocommands"}
    ensures Covers(t, text, allow, name, index) <==> (allow <==> text in {"+@all", "allcommands"})
  {
    hide IsPair, FirstNamed, LowerAll, CommandCategories;
    WordsAreLower();
    AllIsNoCategory();
    assert Sign(true) + "@all" == "+@all" && Sign(false) + "@all" == "-@all";
    assert "+@all"[0] == '+' && "-@all"[0] == '-' && "allcommands"[0] == 'a' && "nocommands"[0] == 'n';
    forall c
      ensures !ForCategory(text, allow, c)
    {
      CategoryText(text, allow, c);
    }
    CommandText(text, allow, name);
    assert "+@all"[1] == '@' && "-@all"[1] == '@' && "+@all"[2..] == "all" && "-@all"[2..] == "all";
  }

  /** A sign before the name of a command covers that command alone, with all its subcommands. */
  lemma {:induction false} CommandTexts(t: Table, sign: bool, text: string, allow: bool, name: string, index: int)
    requires name in t && text in t && LowerAll(text) == text && '|' !in text && (text == "" || text[0] != '@')
    ensures Covers(t, Sign(sign) + text, allow, name, index) <==> allow == sign && name == text
  {
    hide FirstNamed, LowerAll, CommandCategories;
    var l := Sign(sign) + text;
    LowerSigned(sign, text);
    assert l[1..] == text;
    forall c
      ensures !ForCategory(l, allow, c)
    {
      CategoryText(l, allow, c);
    }
    forall sub
      ensures !ForSubcommand(l, allow, name, sub)
    {
      hide Split;
      SubcommandText(l, allow, name, sub);
    }
    CommandText(l, allow, name);
    WordsAreLower();
    AllAfterMark(l, Sign(allow)[0]);
  }

  lemma {:induction false} LowerSigned(sign: bool, text: string)
    ensures LowerAll(Sign(sign) + text) == Sign(sign) + LowerAll(text)
  {
    LowerConcat(Sign(sign), text);
    MarksHaveNoCase(Sign(sign)[0]);
  }

  /** A sign and the mark before the name of a category cover the commands of that category. */
  lemma {:induction false} CategoryTexts(t: Table, sign: bool, category: string, allow: bool, name: string, index: int)
    requires name in t && category in CommandCategories && LowerAll(category) == category
    ensures Covers(t, Sign(sign) + "@" + category, allow, name, index)
            <==> allow == sign && CommandCategories[category] in t[name].categories
  {
    hide IsPair, FirstNamed, LowerAll, CommandCategories;
    var l := Sign(sign) + "@" + category;
    LowerConcat("@", category);
    LowerMark();
    assert l == Sign(sign) + ("@" + category);
    LowerSigned(sign, "@" + category);
    assert l[1] == '@' && l[2..] == category;
    CategoryText(l, allow, category);
    forall c
      ensures ForCategory(l, allow, c) <==> allow == sign && c == category
    {
      CategoryText(l, allow, c);
    }
    CommandText(l, allow, name);
    AllIsNoCategory();
    WordsAreLower();
    AllAfterMark(l, Sign(allow)[0]);
  }

  lemma {:induction false} LowerMark()
    ensures LowerAll("@") == "@" && LowerAll("|") == "|"
  {
  }

  /** A sign before a name, a bar and a subcommand covers the first subcommand of that name alone. */
  lemma {:induction false} SubcommandTexts(t: Table, sign: bool, text: string, sub: string, allow: bool, name: string, index: int)
    requires name in t && text in t && IsPiece(text) && IsPiece(sub) && text[0] != '@'
    requires LowerAll(text) == text && LowerAll(sub) == sub
    ensures Covers(t, Sign(sign) + text + "|" + sub, allow, name, index)
            <==> allow == sign && name == text && FirstNamed(t[name].subs, sub, index)
  {
    hide FirstNamed, LowerAll, CommandCategories, Split;
    var s := text + ("|" + sub);
    var l := Sign(sign) + s;
    assert Sign(sign) + text + "|" + sub == l;
    LowerMark();
    LowerConcat("|", sub);
    LowerConcat(text, "|" + sub);
    LowerSigned(sign, s);
    assert l[1..] == s && s == Paired(0, text, 1, sub, 0) by {
      assert Bars(0) == "" && Bars(1) == "|";
      assert Paired(0, text, 1, sub, 0) == text + ("|" + (sub + ""));
      assert sub + "" == sub;
    }
    SplitPair(s, text, sub);
    assert s[|text|] == '|';
    forall c
      ensures !ForCategory(l, allow, c)
    {
      CategoryText(l, allow, c);
    }
    forall x
      ensures ForSubcommand(l, allow, name, x) <==> allow == sign && name == text && x == sub
    {
      SubcommandText(l, allow, name, x);
    }
    CommandText(l, allow, name);
    WordsAreLower();
    AllAfterMark(l, Sign(allow)[0]);
  }

  // Which texts are accepted, and what they do to keys and channels

  function TextAfter(op: string, r: Option<(Pattern, nat)>): Option<Pattern>
    requires r.Some? ==> r.value.1 <= |op|
  {
    if r.None? then None else Some(r.value.0.(text := op[r.value.1..]))
  }

  /** The letters still allowed, from position i on. */
  lemma {:induction false} FlagsStep(op: string, i: nat, read: bool, write: bool)
    requires i <= |op|
    ensures var r := TextAfter(op, PatternFlags(op, i, read, write));
            if i == |op| then r == Some(Pattern(read, write, ""))
            else if Lower(op[i]) == 'r' && !read then r == TextAfter(op, PatternFlags(op, i + 1, true, write))
            else if Lower(op[i]) == 'w' && !write then r == TextAfter(op, PatternFlags(op, i + 1, read, true))
            else r == if op[i] == '~' then Some(Pattern(read, write, op[i + 1..])) else None
  {
    assert op[|op|..] == "";
  }

  /** What the letters from the first on come to, one, two or none of them. */
  lemma {:induction false} FlagsSteps(op: string)
    requires op != ""
    ensures var r := TextAfter(op, PatternFlags(op, 1, false, false));
            if |op| == 1 then r == Some(Pattern(false, false, ""))
            else if Lower(op[1]) !in {'r', 'w'} then r == if op[1] == '~' then Some(Pattern(false, false, op[2..])) else None
            else
              var read, write := Lower(op[1]) == 'r', Lower(op[1]) == 'w';
              if |op| == 2 then r == Some(Pattern(read, write, ""))
              else if !(Lower(op[2]) in {'r', 'w'} && Lower(op[2]) != Lower(op[1])) then
                r == if op[2] == '~' then Some(Pattern(read, write, op[3..])) else None
              else if |op| == 3 then r == Some(Pattern(true, true, ""))
              else r == if op[3] == '~' then Some(Pattern(true, true, op[4..])) else None
  {
    hide PatternFlags;
    FlagsStep(op, 1, false, false);
    if |op| > 1 {
      FlagsStep(op, 2, true, false);
      FlagsStep(op, 2, false, true);
      if |op| > 2 { FlagsStep(op, 3, true, true); }
    }
  }

  lemma {:induction false} FlagsArePerms(op: string, p: Pattern) returns (q: string)
    requires op != "" && TextAfter(op, PatternFlags(op, 1, false, false)) == Some(p)
    ensures HasPerms(op, q) && p == PermsPattern(op, q)
  {
    hide PatternFlags, TextAfter;
    FlagsSteps(op);
    if |op| == 1 || op[1] == '~' {
      q := "";
      assert op[1..1] == "";
    } else if |op| == 2 || op[2] == '~' {
      q := [Lower(op[1])];
      assert op[1..2] == [op[1]];
    } else {
      q := [Lower(op[1]), Lower(op[2])];
      assert op[1..3] == [op[1], op[2]];
    }
  }

  lemma {:induction false} PermsAreFlags(op: string, q: string)
    requires op != "" && HasPerms(op, q)
    ensures TextAfter(op, PatternFlags(op, 1, false, false)) == Some(PermsPattern(op, q))
  {
    hide PatternFlags, TextAfter, Lower;
    FlagsSteps(op);
    LettersOf(op, q);
    assert Lower('~') == '~' by { MarksHaveNoCase('~'); }
  }

  lemma {:induction false} LettersOf(op: string, q: string)
    requires op != "" && 1 + |q| <= |op| && LowerAll(op[1..1 + |q|]) == q
    ensures forall i | 0 <= i < |q| :: Lower(op[1 + i]) == q[i]
  {
    forall i | 0 <= i < |q|
      ensures Lower(op[1 + i]) == q[i]
    {
      assert q[i] == LowerAll(op[1..1 + |q|])[i] == Lower(op[1..1 + |q|][i]);
    }
  }

  /** A key rule is accepted exactly for a text of keys while not all keys are allowed, and adds its pattern. */
  lemma {:induction false} KeyRuleExact(s: Selector, op: string, s': Selector)
    requires op != "" && op[0] in {'~', '%'}
    ensures ApplyKeyRule(s, op) == Some(s')
            <==> !s.allKeys && exists p :: KeyText(op, p) && s' == s.(patterns := InsertPattern(s.patterns, p))
  {
    hide PatternFlags, InsertPattern, HasSpace, HasPerms;
    if op[0] == '%' {
      var r := TextAfter(op, PatternFlags(op, 1, false, false));
      if r.Some? {
        var q := FlagsArePerms(op, r.value);
        assert !HasSpace(op) ==> KeyText(op, r.value);
      }
      forall q | HasPerms(op, q)
        ensures r == Some(PermsPattern(op, q))
      {
        PermsAreFlags(op, q);
      }
      forall p
        ensures KeyText(op, p) <==> !HasSpace(op) && r == Some(p)
      {
      }
    } else {
      assert !HasSpace(op) ==> KeyText(op, Pattern(true, true, op[1..]));
      forall p
        ensures KeyText(op, p) <==> !HasSpace(op) && p == Pattern(true, true, op[1..])
      {
      }
    }
  }

  /** The facts of a selector; what it may execute is the command test's to say. */
  predicate Holds(f: Fact, s: Selector)
    requires f.AllKeysHeld? || f.KeyHeld? || f.AllChannelsHeld? || f.ChannelHeld?
  {
    match f
    case AllKeysHeld => s.allKeys
    case KeyHeld(text, write) => Listed(s.patterns, text, write)
    case AllChannelsHeld => s.allChannels
    case ChannelHeld(text) => text in s.channels
  }

  lemma {:induction false} InsertMeans(ps: seq<Pattern>, p: Pattern, text: string, write: bool)
    ensures Listed(InsertPattern(ps, p), text, write) <==> Listed(ps, text, write) || Has(p, text, write)
  {
    if ps == [] {
      assert Has(p, text, write) ==> p in [p];
    } else if ps[0].text == p.text {
      var q := Pattern(ps[0].read || p.read, ps[0].write || p.write, p.text);
      ListedSplits(ps, text, write);
      ListedSplits([q] + ps[1..], text, write);
      assert ([q] + ps[1..])[1..] == ps[1..];
    } else {
      InsertMeans(ps[1..], p, text, write);
      ListedSplits(ps, text, write);
      ListedSplits([ps[0]] + InsertPattern(ps[1..], p), text, write);
      assert ([ps[0]] + InsertPattern(ps[1..], p))[1..] == InsertPattern(ps[1..], p);
    }
  }

  lemma {:induction false} ListedSplits(ps: seq<Pattern>, text: string, write: bool)
    requires ps != []
    ensures Listed(ps, text, write) <==> Has(ps[0], text, write) || Listed(ps[1..], text, write)
  {
    if Listed(ps, text, write) {
      var p :| p in ps && Has(p, text, write);
      assert p == ps[0] || p in ps[1..];
    }
    if Listed(ps[1..], text, write) {
      var p :| p in ps[1..] && Has(p, text, write);
      assert p in ps;
    }
  }

  /** The rules for keys and channels, read off the text. */
  lemma {:induction false} PatternRuleOfText(op: string)
    ensures RuleOf(op) == AllKeys <==> AllKeysText(op)
    ensures RuleOf(op) == ResetKeys <==> LowerAll(op) == "resetkeys"
    ensures RuleOf(op) == AllChannels <==> AllChannelsText(op)
    ensures RuleOf(op) == ResetChannels <==> LowerAll(op) == "resetchannels"
    ensures RuleOf(op) == KeyRule <==> op != "" && op[0] in {'~', '%'} && op != "~*"
    ensures RuleOf(op) == ChannelRule <==> op != "" && op[0] == '&' && op != "&*"
  {
    hide LowerAll, Lower;
    WordsAreLower();
    LowerParts(op);
    assert "allkeys"[1] == 'l' && "resetkeys"[5] == 'k' && "resetchannels"[5] == 'c' && |"allkeys"| == 7;
    StarHasNoCase(op);
  }

  lemma {:induction false} StarHasNoCase(op: string)
    ensures LowerAll(op) == "&*" <==> op == "&*"
  {
    if LowerAll(op) == "&*" {
      assert |op| == 2 && LowerAll(op)[0] == Lower(op[0]) && LowerAll(op)[1] == Lower(op[1]);
      assert op[0] == '&' && op[1] == '*';
    }
  }

  lemma {:induction false} KeyTextUnique(op: string, p: Pattern, p': Pattern)
    requires KeyText(op, p) && KeyText(op, p')
    ensures p == p'
  {
    hide HasPerms, PatternFlags, TextAfter, HasSpace;
    if op[0] == '%' {
      var q :| HasPerms(op, q) && p == PermsPattern(op, q);
      var q' :| HasPerms(op, q') && p' == PermsPattern(op, q');
      PermsAreFlags(op, q);
      PermsAreFlags(op, q');
    }
  }

  lemma {:induction false} KeyTextIsKeyRule(op: string)
    ensures forall p | KeyText(op, p) :: op != "" && op[0] in {'~', '%'}
  {
  }

  /** The same keys and channels. */
  predicate SamePatterns(s: Selector, s': Selector) {
    s'.allKeys == s.allKeys && s'.patterns == s.patterns && s'.allChannels == s.allChannels && s'.channels == s.channels
  }

  lemma {:induction false} CommandRuleKeepsPatterns(t: Table, s: Selector, name: string, allow: bool)
    requires ApplyCommandRule(t, s, name, allow).Some?
    ensures SamePatterns(s, ApplyCommandRule(t, s, name, allow).value)
  {
    hide Split, SubCmdIndex, FullMask, MaskOf;
  }

  /** The rules, by what they do to keys and channels. */
  lemma {:induction false} PatternEffects(t: Table, s: Selector, op: string)
    requires Apply(t, s, op).Some?
    ensures var s' := Apply(t, s, op).value;
            match RuleOf(op)
            case AllKeys => s' == s.(allKeys := true, patterns := [])
            case ResetKeys => s' == s.(allKeys := false, patterns := [])
            case AllChannels => s' == s.(allChannels := true, channels := [])
            case ResetChannels => s' == s.(allChannels := false, channels := [])
            case KeyRule => ApplyKeyRule(s, op) == Some(s')
            case ChannelRule => ApplyChannelRule(s, op) == Some(s')
            case _ => SamePatterns(s, s')
  {
    hide RuleOf, ApplyKeyRule, ApplyChannelRule, ApplyCommandRule, WithMask, CategoryIds, CategoryIdsWithSubs, IdsWithSubs,
         AllBits, FullMask;
    match RuleOf(op)
    case CommandRule(name, allow) => CommandRuleKeepsPatterns(t, s, name, allow);
    case _ =>
  }

  lemma {:induction false} KeyRuleStep(s: Selector, op: string, s': Selector, f: Fact)
    requires op != "" && op[0] in {'~', '%'} && op != "~*" && ApplyKeyRule(s, op) == Some(s')
    requires f.AllKeysHeld? || f.KeyHeld? || f.AllChannelsHeld? || f.ChannelHeld?
    ensures Holds(f, s') <==> (f.KeyHeld? && TurnsOn(f, op)) || Holds(f, s)
  {
    hide LowerAll, ApplyKeyRule, AllKeysText, AllChannelsText, KeyText, Has, Listed, InsertPattern;
    KeyRuleExact(s, op, s');
    var p :| KeyText(op, p) && s' == s.(patterns := InsertPattern(s.patterns, p));
    if f.KeyHeld? {
      InsertMeans(s.patterns, p, f.text, f.write);
      forall p' | KeyText(op, p')
        ensures p' == p
      {
        KeyTextUnique(op, p, p');
      }
    }
  }

  /** One accepted text makes a fact hold, ends it, or leaves it. */
  lemma {:induction false} FactStep(t: Table, s: Selector, op: string, f: Fact)
    requires Apply(t, s, op).Some? && (f.AllKeysHeld? || f.KeyHeld? || f.AllChannelsHeld? || f.ChannelHeld?)
    ensures Holds(f, Apply(t, s, op).value) <==> TurnsOn(f, op) || (Holds(f, s) && !TurnsOff(f, op))
  {
    hide RuleOf, Apply, LowerAll, ApplyKeyRule, AllKeysText, AllChannelsText, KeyText, Has, HasSpace;
    PatternRuleOfText(op);
    KeyTextIsKeyRule(op);
    PatternEffects(t, s, op);
    if RuleOf(op) == KeyRule {
      KeyRuleStep(s, op, Apply(t, s, op).value, f);
    }
  }

  /**
   What a new selector holds about keys and channels after accepted texts: what some text gave and none after
   it took away, and what it began with unless some text took that away.
   */
  lemma {:induction false} LastKeyTextWins(t: Table, s: Selector, ops: seq<string>, f: Fact)
    requires ApplyAll(t, s, ops).Some? && (f.AllKeysHeld? || f.KeyHeld? || f.AllChannelsHeld? || f.ChannelHeld?)
    ensures Holds(f, ApplyAll(t, s, ops).value)
            <==> Since(f, ops) || (Holds(f, s) && forall op | op in ops :: !TurnsOff(f, op))
  {
    hide Apply, Holds, TurnsOn, TurnsOff, Since;
    if ops == [] {
      assert !Since(f, ops) by { NothingSince(f); }
    } else {
      var n := |ops| - 1;
      LastKeyTextWins(t, s, ops[..n], f);
      FactStep(t, ApplyAll(t, s, ops[..n]).value, ops[n], f);
      SinceLast(f, ops);
      assert ops == ops[..n] + [ops[n]];
    }
  }

  /** A text that the parser of a selector accepts. */
  ghost predicate Accepted(t: Table, s: Selector, op: string) {
    var l := LowerAll(op);
    || AllKeysText(op) || l == "resetkeys" || AllChannelsText(op) || l == "resetchannels"
    || ForAll(l, true) || ForAll(l, false)
    || (!s.allKeys && exists p :: KeyText(op, p))
    || (!s.allChannels && op != "" && op[0] == '&' && !HasSpace(op))
    || (exists allow, c :: ForCategory(l, allow, c))
    || CommandAccepted(t, l, true) || CommandAccepted(t, l, false)
  }

  /** The texts for a command or for one of its subcommands that are accepted. */
  ghost predicate CommandAccepted(t: Table, l: string, allow: bool) {
    || (exists n | n in t :: ForCommand(l, allow, n))
    || (exists n, sub | n in t ::
          ForSubcommand(l, allow, n, sub) && (t[n].subs == [] || exists i :: FirstNamed(t[n].subs, sub, i)))
  }

  lemma {:induction false} CommandAcceptedExact(t: Table, s: Selector, l: string, allow: bool)
    requires |l| > 0 && l[0] == Sign(allow)[0] && (|l| > 1 ==> l[1] != '@')
    ensures ApplyCommandRule(t, s, l[1..], allow).Some? <==> CommandAccepted(t, l, allow)
  {
    hide Split, IsPair, SubCmdIndex, SameIgnoringCase, Change, ChangeSub, ForCommand, ForSubcommand;
    var name, parts := l[1..], Split(l[1..], '|');
    forall n | n in t
      ensures ForCommand(l, allow, n) <==> '|' !in name && n == name
    {
      CommandText(l, allow, n);
    }
    forall n, sub | n in t
      ensures ForSubcommand(l, allow, n, sub) <==> '|' in name && parts == [n, sub]
    {
      SubcommandText(l, allow, n, sub);
    }
    if '|' in name && |parts| == 2 && parts[0] in t {
      assert parts == [parts[0], parts[1]];
      assert ForSubcommand(l, allow, parts[0], parts[1]);
      SubCmdFound(t[parts[0]].subs, parts[1]);
    }
  }

  lemma {:induction false} SubCmdFound(subs: seq<string>, sub: string)
    ensures SubCmdIndex(subs, sub) >= 0 <==> exists i :: FirstNamed(subs, sub, i)
  {
    hide SameIgnoringCase;
    if SubCmdIndex(subs, sub) >= 0 {
      assert FirstNamed(subs, sub, SubCmdIndex(subs, sub));
    }
  }

  /** The parser accepts exactly these texts. */
  lemma {:induction false} AcceptedExact(t: Table, s: Selector, op: string)
    ensures Apply(t, s, op).Some? <==> Accepted(t, s, op)
  {
    hide RuleOf, LowerAll, ApplyKeyRule, ApplyCommandRule, KeyText, HasSpace, ChangeCategory,
         SetAll, ResetAll, FirstNamed, CommandAccepted, CommandCategories;
    var l := LowerAll(op);
    RuleOfText(op);
    PatternRuleOfText(op);
    KeyTextIsKeyRule(op);
    WordsAreLower();
    LowerParts(op);
    AllIsNoCategory();
    SignsAgree(t, l);
    match RuleOf(op)
    case KeyRule => KeyAccepted(s, op);
    case CommandRule(name, allow) => CommandAcceptedExact(t, s, l, allow);
    case _ =>
  }

  lemma {:induction false} KeyAccepted(s: Selector, op: string)
    requires op != "" && op[0] in {'~', '%'}
    ensures ApplyKeyRule(s, op).Some? <==> !s.allKeys && exists p :: KeyText(op, p)
  {
    hide ApplyKeyRule, KeyText;
    if ApplyKeyRule(s, op).Some? {
      KeyRuleExact(s, op, ApplyKeyRule(s, op).value);
    }
    if p :| !s.allKeys && KeyText(op, p) {
      KeyRuleExact(s, op, s.(patterns := InsertPattern(s.patterns, p)));
    }
  }

  /** A text that starts with a sign is for commands or for categories, as its second character says. */
  lemma {:induction false} SignsAgree(t: Table, l: string)
    ensures (exists allow, c :: ForCategory(l, allow, c)) <==>
              |l| > 1 && l[0] in {'+', '-'} && l[1] == '@' && l[2..] in CommandCategories
    ensures forall allow | CommandAccepted(t, l, allow) ::
              |l| > 0 && l[0] == Sign(allow)[0] && (|l| > 1 ==> l[1] != '@')
  {
    hide CommandCategories, IsPair, FirstNamed;
    forall allow, c
      ensures ForCategory(l, allow, c) <==>
                c in CommandCategories && |l| > 1 && l[0] == Sign(allow)[0] && l[1] == '@' && l[2..] == c
    {
      CategoryText(l, allow, c);
    }
    if |l| > 1 && l[0] in {'+', '-'} && l[1] == '@' && l[2..] in CommandCategories {
      assert ForCategory(l, l[0] == '+', l[2..]);
    }
    forall allow, n
      ensures ForCommand(l, allow, n) ==> |l| > 0 && l[0] == Sign(allow)[0] && (|l| > 1 ==> l[1] != '@')
    {
      CommandText(l, allow, n);
    }
  }
}
