/** Compiling a seccomp profile into stacked single-action filters (crates/ward-agent/src/seccomp.rs).

    Syscall tables are maps from name to number, one per architecture tag; a filter is the set of
    numbers it matches. The kernel runs every installed filter, newest first, and keeps the most
    restrictive result, the newest one among equals. */
module Seccomp {
  import opened Wrappers
  import opened Ordering
  import opened Decimals

  /** A rule's action, as written in the profile. */
  datatype Action = ActAllow | ActErrno | ActKillProcess

  /** A filter's action, as the kernel applies it. */
  datatype SeccompAction = Allow | Errno(code: nat) | KillProcess

  datatype Rule = Rule(names: seq<string>, action: Action, errno: Option<int>)

  datatype Profile = Profile(defaultAction: Action, architectures: seq<string>, rules: seq<Rule>)

  type Table = map<string, int>

  datatype CompileError =
    | UnsupportedArch(tag: string)
    | NotCovered(tag: string)
    | ErrnoRuleWithoutErrno
    | NegativeErrno(code: int)
    | UnknownSyscall(name: string)
    | IdenticalActions

  datatype Filter = Filter(numbers: set<int>, onMatch: SeccompAction, otherwise: SeccompAction)

  datatype Compiled = Compiled(programs: seq<Filter>, unreachable: seq<string>)

  function ToAction(action: Action, errno: Option<int>): Result<SeccompAction, CompileError> {
    match action
    case ActAllow => Ok(Allow)
    case ActKillProcess => Ok(KillProcess)
    case ActErrno =>
      if errno.None? then Err(ErrnoRuleWithoutErrno)
      else if errno.value < 0 then Err(NegativeErrno(errno.value))
      else Ok(Errno(errno.value))
  }

  function RuleAction(rule: Rule): Result<SeccompAction, CompileError> {
    ToAction(rule.action, rule.errno)
  }

  /** The action's `Debug` form, by which the groups are keyed and ordered. */
  function Key(action: SeccompAction): string {
    match action
    case Allow => "Allow"
    case KillProcess => "KillProcess"
    case Errno(code) => "Errno(" + Digits(code) + ")"
  }

  lemma KeyIsInjective(a: SeccompAction, b: SeccompAction)
    requires Key(a) == Key(b)
    ensures a == b
  {
    assert Key(a)[0] == Key(b)[0];
    if a.Errno? && b.Errno? {
      var da, db := Digits(a.code), Digits(b.code);
      assert da == Key(a)[6..|Key(a)| - 1] && db == Key(b)[6..|Key(b)| - 1];
      DigitsAreInjective(a.code, b.code);
    }
  }

  // -------------------------------------------------------------------------------------------
  // The compiler

  predicate KnownElsewhere(profile: Profile, tag: string, tables: map<string, Table>, name: string) {
    exists t | t in profile.architectures && t in tables :: t != tag && name in tables[t]
  }

  /** Everything `compile` demands of a profile. */
  predicate Compiles(profile: Profile, tag: string, tables: map<string, Table>) {
    && (forall t | t in profile.architectures :: t in tables)
    && tag in profile.architectures
    && ToAction(profile.defaultAction, None).Ok?
    && AllConvert(profile.rules)
    && AllNamesKnown(profile.rules, profile, tag, tables)
    && ToAction(profile.defaultAction, None).value !in UsedActions(profile.rules)
  }

  /** The same demands on the profile's own fields. */
  predicate WellFormed(profile: Profile, tag: string, tables: map<string, Table>) {
    && (forall t | t in profile.architectures :: t in tables)
    && tag in profile.architectures
    && profile.defaultAction != ActErrno
    && (forall rule | rule in profile.rules ::
          && (rule.action == ActErrno ==> rule.errno.Some? && rule.errno.value >= 0)
          && rule.action != profile.defaultAction)
    && AllNamesKnown(profile.rules, profile, tag, tables)
  }

  /** A refusal names something that is wrong with the profile. */
  predicate Justified(error: CompileError, profile: Profile, tag: string, tables: map<string, Table>) {
    match error
    case UnsupportedArch(t) => t in profile.architectures && t !in tables
    case NotCovered(t) => t == tag && tag !in profile.architectures
    case ErrnoRuleWithoutErrno =>
      || profile.defaultAction == ActErrno
      || exists rule | rule in profile.rules :: rule.action == ActErrno && rule.errno.None?
    case NegativeErrno(code) =>
      code < 0 && exists rule | rule in profile.rules :: rule.action == ActErrno && rule.errno == Some(code)
    case UnknownSyscall(name) =>
      && (exists rule | rule in profile.rules :: name in rule.names)
      && (tag in tables ==> name !in tables[tag]) && !KnownElsewhere(profile, tag, tables, name)
    case IdenticalActions => exists rule | rule in profile.rules :: rule.action == profile.defaultAction
  }

  lemma CompilesMeansWellFormed(profile: Profile, tag: string, tables: map<string, Table>)
    ensures Compiles(profile, tag, tables) <==> WellFormed(profile, tag, tables)
  {
    if Compiles(profile, tag, tables) {
      forall rule | rule in profile.rules
        ensures rule.action != profile.defaultAction
      {
        assert RuleAction(rule).value in UsedActions(profile.rules);
      }
    }
  }

  function NativeNumbers(names: seq<string>, native: Table): set<int> {
    set name | name in names && name in native :: native[name]
  }

  /** The numbers a profile gives one action to. */
  function GroupNumbers(rules: seq<Rule>, native: Table, action: SeccompAction): set<int> {
    set rule, name |
      rule in rules && RuleAction(rule) == Ok(action) && name in rule.names && name in native :: native[name]
  }

  /** Names, in order, that have no native number. */
  function NotNative(names: seq<string>, native: Table): seq<string> {
    if names == [] then [] else
    NotNative(names[..|names| - 1], native) + (if names[|names| - 1] in native then [] else [names[|names| - 1]])
  }

  function Unreachable(rules: seq<Rule>, native: Table): seq<string> {
    if rules == [] then [] else
    Unreachable(rules[..|rules| - 1], native) + NotNative(rules[|rules| - 1].names, native)
  }

  datatype Group = Group(action: SeccompAction, numbers: set<int>)

  predicate AllConvert(rules: seq<Rule>) {
    forall rule | rule in rules :: RuleAction(rule).Ok?
  }

  function UsedActions(rules: seq<Rule>): set<SeccompAction> {
    set rule | rule in rules && RuleAction(rule).Ok? :: RuleAction(rule).value
  }

  /** The groups hold exactly what the rules read so far say. */
  predicate GroupsMatch(groups: map<string, Group>, rules: seq<Rule>, native: Table) {
    && AllConvert(rules)
    && (forall k | k in groups ::
          && k == Key(groups[k].action)
          && groups[k].action in UsedActions(rules)
          && groups[k].numbers == GroupNumbers(rules, native, groups[k].action))
    && (forall a | a in UsedActions(rules) :: Key(a) in groups)
  }

  /** Programs stand in strict key order. */
  predicate Ordered(programs: seq<Filter>) {
    forall i, j | 0 <= i < j < |programs| :: TextLess(Key(programs[i].onMatch), Key(programs[j].onMatch))
  }

  /** Every program falls back to the same default and does something else on a match. */
  predicate FallsBackTo(programs: seq<Filter>, default: SeccompAction) {
    forall i | 0 <= i < |programs| :: programs[i].otherwise == default && programs[i].onMatch != default
  }

  function ActionsOf(programs: seq<Filter>): set<SeccompAction> {
    set i | 0 <= i < |programs| :: programs[i].onMatch
  }

  /** One program per action used, in key order, matching exactly that action's numbers. */
  predicate ProgramsMatch(programs: seq<Filter>, rules: seq<Rule>, native: Table, default: SeccompAction) {
    && AllConvert(rules)
    && Ordered(programs)
    && FallsBackTo(programs, default)
    && ActionsOf(programs) == UsedActions(rules)
    && forall i | 0 <= i < |programs| :: programs[i].numbers == GroupNumbers(rules, native, programs[i].onMatch)
  }

  /** The inner loop: insert the native numbers of one rule's names into its group and push the
      names that only another declared architecture has. */
  method ResolveNames(names: seq<string>, profile: Profile, tag: string, tables: map<string, Table>,
                      numbers: set<int>, unreachable: seq<string>)
    returns (r: Result<(set<int>, seq<string>), CompileError>)
    requires tag in tables
    ensures r.Ok? <==> forall name | name in names :: name in tables[tag] || KnownElsewhere(profile, tag, tables, name)
    ensures r.Err? ==> r.error.UnknownSyscall? && r.error.name in names && r.error.name !in tables[tag]
                       && !KnownElsewhere(profile, tag, tables, r.error.name)
    ensures r.Ok? ==> r.value.0 == numbers + NativeNumbers(names, tables[tag])
                      && r.value.1 == unreachable + NotNative(names, tables[tag])
  {
    var native := tables[tag];
    var found, missing := numbers, unreachable;
    for j := 0 to |names|
      invariant forall name | name in names[..j] :: name in native || KnownElsewhere(profile, tag, tables, name)
      invariant found == numbers + NativeNumbers(names[..j], native)
      invariant missing == unreachable + NotNative(names[..j], native)
    {
      var name := names[j];
      assert names[..j + 1] == names[..j] + [name];
      if name in native {
        assert NativeNumbers(names[..j + 1], native) == NativeNumbers(names[..j], native) + {native[name]};
        found := found + {native[name]};
      } else if KnownElsewhere(profile, tag, tables, name) {
        assert NativeNumbers(names[..j + 1], native) == NativeNumbers(names[..j], native);
        missing := missing + [name];
      } else {
        return Err(UnknownSyscall(name));
      }
    }
    assert names[..|names|] == names;
    return Ok((found, missing));
  }

  lemma GroupNumbersAppend(rules: seq<Rule>, rule: Rule, native: Table, action: SeccompAction)
    ensures GroupNumbers(rules + [rule], native, action) ==
              GroupNumbers(rules, native, action)
              + (if RuleAction(rule) == Ok(action) then NativeNumbers(rule.names, native) else {})
  {
  }

  lemma UnusedHasNoNumbers(rules: seq<Rule>, native: Table, action: SeccompAction)
    requires action !in UsedActions(rules)
    ensures GroupNumbers(rules, native, action) == {}
  {
  }

  /** Adding one rule's numbers to its group keeps the groups in step with the rules. */
  lemma GroupsMatchAppend(groups: map<string, Group>, rules: seq<Rule>, rule: Rule, native: Table, group: Group)
    requires GroupsMatch(groups, rules, native)
    requires RuleAction(rule) == Ok(group.action)
    requires group.numbers ==
               (if Key(group.action) in groups then groups[Key(group.action)].numbers else {})
               + NativeNumbers(rule.names, native)
    ensures GroupsMatch(groups[Key(group.action) := group], rules + [rule], native)
  {
    var key := Key(group.action);
    var after := groups[key := group];
    if key in groups {
      KeyIsInjective(group.action, groups[key].action);
    } else {
      UnusedHasNoNumbers(rules, native, group.action);
    }
    assert UsedActions(rules + [rule]) == UsedActions(rules) + {group.action};
    forall k | k in after ensures after[k].numbers == GroupNumbers(rules + [rule], native, after[k].action) {
      GroupNumbersAppend(rules, rule, native, after[k].action);
    }
  }

  lemma {:induction false} LeastKeyExists(keys: set<string>) returns (least: string)
    requires keys != {}
    ensures least in keys && forall k | k in keys :: TextLe(least, k)
  {
    TextLeIsTotal();
    var x :| x in keys;
    least := x;
    if keys - {x} != {} {
      var y := LeastKeyExists(keys - {x});
      least := if TextLe(y, x) then y else x;
    }
    assert forall k | k in keys :: k == x || k in keys - {x};
  }

  /** The keys as a `BTreeMap` yields them: strictly increasing, each exactly once. */
  method InKeyOrder(keys: set<string>) returns (order: seq<string>)
    ensures forall i, j | 0 <= i < j < |order| :: TextLess(order[i], order[j])
    ensures forall k :: k in order <==> k in keys
  {
    order := [];
    var rest := keys;
    while rest != {}
      invariant rest <= keys
      invariant forall k :: k in order <==> k in keys - rest
      invariant forall i, k | 0 <= i < |order| && k in rest :: TextLess(order[i], k)
      invariant forall i, j | 0 <= i < j < |order| :: TextLess(order[i], order[j])
    {
      var least := LeastKeyExists(rest);
      var key :| key in rest && forall k | k in rest :: TextLe(key, k);
      forall k | k in rest - {key} ensures TextLess(key, k) {
        assert TextLe(key, k);
      }
      order := order + [key];
      rest := rest - {key};
    }
  }

  /** The last loop of `compile`: one filter per group, in key order. A filter whose two actions
      agree is refused. */
  method BuildPrograms(groups: map<string, Group>, default: SeccompAction, ghost rules: seq<Rule>, ghost native: Table)
    returns (r: Result<seq<Filter>, CompileError>)
    requires GroupsMatch(groups, rules, native)
    ensures r.Ok? <==> default !in UsedActions(rules)
    ensures r.Err? ==> r.error == IdenticalActions
    ensures r.Ok? ==> ProgramsMatch(r.value, rules, native, default)
  {
    var order := InKeyOrder(groups.Keys);
    var programs: seq<Filter> := [];
    for i := 0 to |order|
      invariant |programs| == i
      invariant forall j | 0 <= j < i ::
                  programs[j] == GroupFilter(groups, order[j], default) && programs[j].onMatch != default
    {
      assert order[i] in groups;
      if groups[order[i]].action == default {
        return Err(IdenticalActions);
      }
      programs := programs + [GroupFilter(groups, order[i], default)];
    }
    OrderedGroupsMatch(groups, order, programs, default, rules, native);
    return Ok(programs);
  }

  function GroupFilter(groups: map<string, Group>, key: string, default: SeccompAction): Filter {
    if key in groups then Filter(groups[key].numbers, groups[key].action, default) else Filter({}, default, default)
  }

  lemma OrderedGroupsMatch(groups: map<string, Group>, order: seq<string>, programs: seq<Filter>,
                           default: SeccompAction, rules: seq<Rule>, native: Table)
    requires GroupsMatch(groups, rules, native)
    requires forall i, j | 0 <= i < j < |order| :: TextLess(order[i], order[j])
    requires forall k :: k in order <==> k in groups
    requires |programs| == |order|
    requires forall j | 0 <= j < |order| ::
               programs[j] == GroupFilter(groups, order[j], default) && programs[j].onMatch != default
    ensures ProgramsMatch(programs, rules, native, default)
  {
    forall j | 0 <= j < |order|
      ensures order[j] in groups && programs[j].onMatch == groups[order[j]].action
      ensures Key(programs[j].onMatch) == order[j]
    {
      assert order[j] in order;
    }
    forall a | a in UsedActions(rules) ensures a in ActionsOf(programs) {
      assert Key(a) in order;
      var j :| 0 <= j < |order| && order[j] == Key(a);
      KeyIsInjective(programs[j].onMatch, a);
    }
  }

  /** Every name of every rule is known natively or to another declared architecture. */
  predicate AllNamesKnown(rules: seq<Rule>, profile: Profile, tag: string, tables: map<string, Table>)
    requires tag in tables
  {
    forall rule | rule in rules ::
      forall name | name in rule.names :: name in tables[tag] || KnownElsewhere(profile, tag, tables, name)
  }

  /** The outer loop of `compile`: sort the rules' names into groups by action. */
  method GroupRules(rules: seq<Rule>, profile: Profile, tag: string, tables: map<string, Table>)
    returns (r: Result<(map<string, Group>, seq<string>), CompileError>)
    requires tag in tables
    ensures r.Ok? <==> AllConvert(rules) && AllNamesKnown(rules, profile, tag, tables)
    ensures r.Err? && rules == profile.rules ==> Justified(r.error, profile, tag, tables)
    ensures r.Ok? ==> GroupsMatch(r.value.0, rules, tables[tag]) && r.value.1 == Unreachable(rules, tables[tag])
  {
    var groups: map<string, Group> := map[];
    var unreachable: seq<string> := [];
    for i := 0 to |rules|
      invariant GroupsMatch(groups, rules[..i], tables[tag])
      invariant unreachable == Unreachable(rules[..i], tables[tag])
      invariant AllNamesKnown(rules[..i], profile, tag, tables)
    {
      var rule := rules[i];
      assert rule in rules;
      assert rules[..i + 1] == rules[..i] + [rule];
      var action := RuleAction(rule);
      if action.Err? {
        return Err(action.error);
      }
      var key := Key(action.value);
      var group := if key in groups then groups[key] else Group(action.value, {});
      if key in groups { KeyIsInjective(action.value, group.action); }
      var resolved := ResolveNames(rule.names, profile, tag, tables, group.numbers, unreachable);
      if resolved.Err? {
        return Err(resolved.error);
      }
      group := group.(numbers := resolved.value.0);
      GroupsMatchAppend(groups, rules[..i], rule, tables[tag], group);
      groups := groups[key := group];
      unreachable := resolved.value.1;
    }
    assert rules[..|rules|] == rules;
    return Ok((groups, unreachable));
  }

  method Compile(profile: Profile, tag: string, tables: map<string, Table>) returns (r: Result<Compiled, CompileError>)
    ensures r.Ok? <==> Compiles(profile, tag, tables)
    ensures r.Ok? <==> WellFormed(profile, tag, tables)
    ensures r.Err? ==> Justified(r.error, profile, tag, tables)
    ensures r.Ok? && profile.defaultAction == ActAllow ==>
              forall nr :: AllowingVerdict(profile.rules, tables[tag], nr, Stacked(r.value.programs, nr))
    ensures r.Ok? && profile.defaultAction == ActKillProcess ==>
              forall nr :: KillingVerdict(profile.rules, tables[tag], nr, Stacked(r.value.programs, nr))
    ensures r.Ok? ==>
              && ProgramsMatch(r.value.programs, profile.rules, tables[tag],
                               ToAction(profile.defaultAction, None).value)
              && r.value.unreachable == Unreachable(profile.rules, tables[tag])
  {
    CompilesMeansWellFormed(profile, tag, tables);
    for i := 0 to |profile.architectures|
      invariant forall t | t in profile.architectures[..i] :: t in tables
    {
      if profile.architectures[i] !in tables {
        return Err(UnsupportedArch(profile.architectures[i]));
      }
    }
    if tag !in profile.architectures {
      return Err(NotCovered(tag));
    }
    var default := ToAction(profile.defaultAction, None);
    if default.Err? {
      return Err(default.error);
    }
    var grouped := GroupRules(profile.rules, profile, tag, tables);
    if grouped.Err? {
      return Err(grouped.error);
    }
    var programs := BuildPrograms(grouped.value.0, default.value, profile.rules, tables[tag]);
    if programs.Err? {
      return Err(programs.error);
    }
    CompiledVerdicts(profile, tag, tables, programs.value);
    return Ok(Compiled(programs.value, grouped.value.1));
  }

  // -------------------------------------------------------------------------------------------
  // What the kernel makes of the stack

  function Rank(action: SeccompAction): nat {
    match action
    case KillProcess => 0
    case Errno(_) => 1
    case Allow => 2
  }

  function Verdict(filter: Filter, nr: int): SeccompAction {
    if nr in filter.numbers then filter.onMatch else filter.otherwise
  }

  /** Run the `count` oldest filters, newest first, keeping the first most restrictive result. */
  function Evaluate(programs: seq<Filter>, nr: int, count: nat, best: SeccompAction): SeccompAction
    requires count <= |programs|
  {
    if count == 0 then best else
    var verdict := Verdict(programs[count - 1], nr);
    Evaluate(programs, nr, count - 1, if Rank(verdict) < Rank(best) then verdict else best)
  }

  /** The kernel's answer for a syscall once every program has been installed in order. */
  function Stacked(programs: seq<Filter>, nr: int): SeccompAction {
    Evaluate(programs, nr, |programs|, Allow)
  }

  lemma {:induction false} EvaluateKeepsTheNewestOfTheStrictest(
      programs: seq<Filter>, nr: int, count: nat, best: SeccompAction)
    requires count <= |programs|
    ensures var v := Evaluate(programs, nr, count, best);
            && Rank(v) <= Rank(best)
            && (forall i | 0 <= i < count :: Rank(v) <= Rank(Verdict(programs[i], nr)))
            && (|| v == best
                || exists i | 0 <= i < count ::
                     v == Verdict(programs[i], nr) && NewestOf(programs, nr, i, count, v))
            && (v != best ==> Rank(v) < Rank(best))
  {
    if count > 0 {
      var verdict := Verdict(programs[count - 1], nr);
      var next := if Rank(verdict) < Rank(best) then verdict else best;
      EvaluateKeepsTheNewestOfTheStrictest(programs, nr, count - 1, next);
      var v := Evaluate(programs, nr, count, best);
      if v != best {
        if v == next {
          assert NewestOf(programs, nr, count - 1, count, v);
        } else {
          var i :| 0 <= i < count - 1 && v == Verdict(programs[i], nr) && NewestOf(programs, nr, i, count - 1, v);
          assert NewestOf(programs, nr, i, count, v);
        }
      }
    }
  }

  /** Every filter newer than the i-th is strictly less restrictive than `v`. */
  predicate NewestOf(programs: seq<Filter>, nr: int, i: int, count: nat, v: SeccompAction)
    requires count <= |programs| && 0 <= i
  {
    forall j | i < j < count :: Rank(v) < Rank(Verdict(programs[j], nr))
  }

  // -------------------------------------------------------------------------------------------
  // One multi-action filter

  predicate Names(rule: Rule, native: Table, nr: int) {
    exists name | name in rule.names && name in native :: native[name] == nr
  }

  /** The actions the profile gives to a syscall number. */
  function Given(rules: seq<Rule>, native: Table, nr: int): set<SeccompAction> {
    set rule | rule in rules && RuleAction(rule).Ok? && Names(rule, native, nr) :: RuleAction(rule).value
  }

  /** More restrictive; between two errnos, the one whose numeral sorts last. */
  predicate Overrides(a: SeccompAction, b: SeccompAction) {
    Rank(a) < Rank(b) || (Rank(a) == Rank(b) && TextLess(Key(b), Key(a)))
  }

  /** The default when nothing is given, else the one action that overrides all the others. */
  predicate Chosen(given: set<SeccompAction>, default: SeccompAction, v: SeccompAction) {
    if given == {} then v == default
    else v in given && forall a | a in given :: a == v || Overrides(v, a)
  }

  /** `v` is what the profile, read as one multi-action filter, means for `nr`. */
  predicate Means(rules: seq<Rule>, native: Table, default: SeccompAction, nr: int, v: SeccompAction) {
    Chosen(Given(rules, native, nr), default, v)
  }

  lemma MeaningIsUnique(given: set<SeccompAction>, default: SeccompAction, v: SeccompAction, w: SeccompAction)
    requires Chosen(given, default, v) && Chosen(given, default, w)
    ensures v == w
  {
    TextLessIsStrict(Key(v), Key(w));
  }

  // -------------------------------------------------------------------------------------------
  // The stack, program by program

  /** The actions of the programs that match a number. */
  function Matched(programs: seq<Filter>, nr: int): set<SeccompAction> {
    set i | 0 <= i < |programs| && nr in programs[i].numbers :: programs[i].onMatch
  }

  predicate AllMatch(programs: seq<Filter>, nr: int) {
    forall i | 0 <= i < |programs| :: nr in programs[i].numbers
  }

  predicate SameNumbers(programs: seq<Filter>) {
    forall i, j | 0 <= i < |programs| && 0 <= j < |programs| :: programs[i].numbers == programs[j].numbers
  }

  lemma StackedAllows(programs: seq<Filter>, default: SeccompAction, nr: int)
    requires FallsBackTo(programs, default) && Matched(programs, nr) != {} && Stacked(programs, nr) == Allow
    ensures Matched(programs, nr) == {Allow}
  {
    EvaluateKeepsTheNewestOfTheStrictest(programs, nr, |programs|, Allow);
    forall a | a in Matched(programs, nr) ensures a == Allow {
      var j :| 0 <= j < |programs| && nr in programs[j].numbers && programs[j].onMatch == a;
      assert Rank(Allow) <= Rank(Verdict(programs[j], nr));
    }
  }

  lemma StackedRestricts(programs: seq<Filter>, default: SeccompAction, nr: int)
    requires Ordered(programs) && FallsBackTo(programs, default) && Stacked(programs, nr) != Allow
    requires default == Allow || AllMatch(programs, nr)
    ensures Chosen(Matched(programs, nr), default, Stacked(programs, nr))
  {
    EvaluateKeepsTheNewestOfTheStrictest(programs, nr, |programs|, Allow);
    var v := Stacked(programs, nr);
    var i :| 0 <= i < |programs| && v == Verdict(programs[i], nr) && NewestOf(programs, nr, i, |programs|, v);
    assert programs[i].onMatch in Matched(programs, nr);
    forall a | a in Matched(programs, nr) && a != v ensures Overrides(v, a) {
      var j :| 0 <= j < |programs| && nr in programs[j].numbers && programs[j].onMatch == a;
      assert Verdict(programs[j], nr) == a;
      assert Rank(v) == Rank(a) ==> j < i;
    }
  }

  lemma StackedChooses(programs: seq<Filter>, default: SeccompAction, nr: int)
    requires Ordered(programs) && FallsBackTo(programs, default)
    requires Matched(programs, nr) != {} && (default == Allow || AllMatch(programs, nr))
    ensures Chosen(Matched(programs, nr), default, Stacked(programs, nr))
  {
    if Stacked(programs, nr) == Allow {
      StackedAllows(programs, default, nr);
    } else {
      StackedRestricts(programs, default, nr);
    }
  }

  lemma UnmatchedMeans(programs: seq<Filter>, nr: int)
    ensures Matched(programs, nr) == {} <==> forall i | 0 <= i < |programs| :: nr !in programs[i].numbers
  {
    forall i | 0 <= i < |programs| && nr in programs[i].numbers ensures Matched(programs, nr) != {} {
      assert programs[i].onMatch in Matched(programs, nr);
    }
  }

  lemma StackedDefault(programs: seq<Filter>, default: SeccompAction, nr: int)
    requires FallsBackTo(programs, default) && Matched(programs, nr) == {}
    ensures Stacked(programs, nr) == (if programs == [] then Allow else default)
  {
    EvaluateKeepsTheNewestOfTheStrictest(programs, nr, |programs|, Allow);
    UnmatchedMeans(programs, nr);
    assert programs != [] ==> Verdict(programs[0], nr) == default;
  }

  /** With a killing default, a number matched by some programs only is killed by the others. */
  lemma StackedKills(programs: seq<Filter>, nr: int, i: nat)
    requires FallsBackTo(programs, KillProcess) && i < |programs| && nr !in programs[i].numbers
    ensures Stacked(programs, nr) == KillProcess && KillProcess !in Matched(programs, nr)
  {
    EvaluateKeepsTheNewestOfTheStrictest(programs, nr, |programs|, Allow);
    assert Verdict(programs[i], nr) == KillProcess;
  }

  lemma DifferentSets(a: set<int>, b: set<int>) returns (x: int)
    requires a != b
    ensures x in a <==> x !in b
  {
    if y: int :| y in a && y !in b {
      x := y;
    } else {
      assert exists y :: y in b && y !in a by {
        if forall y | y in b :: y in a {
          assert forall y :: y in a <==> y in b;
        }
      }
      x :| x in b && x !in a;
    }
  }

  predicate ChoosesAt(programs: seq<Filter>, default: SeccompAction, nr: int) {
    Chosen(Matched(programs, nr), default, Stacked(programs, nr))
  }

  lemma StackChoosesExactlyWhen(programs: seq<Filter>, default: SeccompAction)
    requires Ordered(programs) && FallsBackTo(programs, default) && !default.Errno?
    ensures (forall nr :: ChoosesAt(programs, default, nr)) <==>
              default == Allow || (programs != [] && SameNumbers(programs))
  {
    if default == Allow || (programs != [] && SameNumbers(programs)) {
      forall nr ensures ChoosesAt(programs, default, nr) {
        if Matched(programs, nr) == {} {
          StackedDefault(programs, default, nr);
        } else {
          StackedChooses(programs, default, nr);
        }
      }
    } else if programs == [] {
      StackedDefault(programs, default, 0);
      assert !ChoosesAt(programs, default, 0);
    } else {
      var i, j :| 0 <= i < |programs| && 0 <= j < |programs| && programs[i].numbers != programs[j].numbers;
      var nr := DifferentSets(programs[i].numbers, programs[j].numbers);
      StackedKills(programs, nr, if nr in programs[i].numbers then j else i);
      assert (if nr in programs[i].numbers then programs[i].onMatch else programs[j].onMatch) in Matched(programs, nr);
      assert !ChoosesAt(programs, default, nr);
    }
  }

  // -------------------------------------------------------------------------------------------
  // Back to the profile

  lemma GivenMeansGrouped(rules: seq<Rule>, native: Table, nr: int, action: SeccompAction)
    ensures action in Given(rules, native, nr) <==> nr in GroupNumbers(rules, native, action)
  {
    if action in Given(rules, native, nr) {
      var rule :| rule in rules && RuleAction(rule) == Ok(action) && Names(rule, native, nr);
      var name :| name in rule.names && name in native && native[name] == nr;
    }
    if nr in GroupNumbers(rules, native, action) {
      var rule, name :|
        && rule in rules && RuleAction(rule) == Ok(action)
        && name in rule.names && name in native && native[name] == nr;
      assert Names(rule, native, nr);
    }
  }

  lemma MatchedIsGiven(programs: seq<Filter>, rules: seq<Rule>, native: Table, default: SeccompAction, nr: int)
    requires ProgramsMatch(programs, rules, native, default)
    ensures Matched(programs, nr) == Given(rules, native, nr)
  {
    forall a ensures a in Matched(programs, nr) <==> a in Given(rules, native, nr) {
      GivenMeansGrouped(rules, native, nr, a);
      if a in Given(rules, native, nr) {
        assert a in UsedActions(rules);
        var i :| 0 <= i < |programs| && programs[i].onMatch == a;
      }
    }
  }

  /** Every action the profile uses names the same native syscalls. */
  predicate SameCoverage(rules: seq<Rule>, native: Table) {
    forall a, b | a in UsedActions(rules) && b in UsedActions(rules) ::
      GroupNumbers(rules, native, a) == GroupNumbers(rules, native, b)
  }

  lemma CoverageIsProgramNumbers(programs: seq<Filter>, rules: seq<Rule>, native: Table, default: SeccompAction)
    requires ProgramsMatch(programs, rules, native, default)
    ensures SameNumbers(programs) <==> SameCoverage(rules, native)
    ensures programs == [] <==> rules == []
  {
    forall i | 0 <= i < |programs| ensures programs[i].onMatch in UsedActions(rules) {
      assert programs[i].onMatch in ActionsOf(programs);
    }
    if SameNumbers(programs) {
      forall a, b | a in UsedActions(rules) && b in UsedActions(rules)
        ensures GroupNumbers(rules, native, a) == GroupNumbers(rules, native, b)
      {
        var i :| 0 <= i < |programs| && programs[i].onMatch == a;
        var j :| 0 <= j < |programs| && programs[j].onMatch == b;
      }
    }
    if rules != [] {
      assert rules[0] in rules;
      assert RuleAction(rules[0]).value in ActionsOf(programs);
    }
    if programs != [] {
      assert programs[0].onMatch in UsedActions(rules);
      var rule :| rule in rules && RuleAction(rule) == Ok(programs[0].onMatch);
    }
  }

  /** The claim that stacking is equivalent to one multi-action filter, for a compiled profile: it
      holds for every syscall exactly when the default is Allow, or there are rules and every
      action names the same syscalls. */
  lemma StackingIsEquivalentExactlyWhen(programs: seq<Filter>, rules: seq<Rule>, native: Table, default: SeccompAction)
    requires ProgramsMatch(programs, rules, native, default) && !default.Errno?
    ensures (forall nr :: Means(rules, native, default, nr, Stacked(programs, nr))) <==>
              default == Allow || (rules != [] && SameCoverage(rules, native))
  {
    StackChoosesExactlyWhen(programs, default);
    CoverageIsProgramNumbers(programs, rules, native, default);
    forall nr ensures ChoosesAt(programs, default, nr) <==> Means(rules, native, default, nr, Stacked(programs, nr)) {
      MatchedIsGiven(programs, rules, native, default, nr);
    }
  }

  // -------------------------------------------------------------------------------------------
  // The verdicts, on the profile's own fields

  /** Some rule with this action names the syscall. */
  predicate Asks(rules: seq<Rule>, native: Table, nr: int, action: Action) {
    exists rule | rule in rules :: rule.action == action && Names(rule, native, nr)
  }

  predicate AsksErrno(rules: seq<Rule>, native: Table, nr: int, code: nat) {
    exists rule | rule in rules :: rule.action == ActErrno && rule.errno == Some(code) && Names(rule, native, nr)
  }

  /** The code is asked for, and its printed form sorts last among those that are. */
  ghost predicate LastErrno(rules: seq<Rule>, native: Table, nr: int, code: nat) {
    && AsksErrno(rules, native, nr, code)
    && forall other: nat | AsksErrno(rules, native, nr, other) && other != code ::
         TextLess("Errno(" + Digits(other) + ")", "Errno(" + Digits(code) + ")")
  }

  /** Over a default of allowing: a killing rule kills, else an errno rule fails the call, else the
      call is allowed. */
  ghost predicate AllowingVerdict(rules: seq<Rule>, native: Table, nr: int, v: SeccompAction) {
    && (v == KillProcess <==> Asks(rules, native, nr, ActKillProcess))
    && (v.Errno? <==> Asks(rules, native, nr, ActErrno) && !Asks(rules, native, nr, ActKillProcess))
    && (v.Errno? ==> LastErrno(rules, native, nr, v.code))
  }

  /** Some rule with the same action, and the same errno if it has one, names the syscall. */
  predicate Covers(rules: seq<Rule>, native: Table, nr: int, rule: Rule) {
    exists other | other in rules ::
      other.action == rule.action && (rule.action == ActErrno ==> other.errno == rule.errno) && Names(other, native, nr)
  }

  /** Over a default of killing: the call survives only if every action used names it, and then an
      errno rule fails it; without rules nothing is installed. */
  ghost predicate KillingVerdict(rules: seq<Rule>, native: Table, nr: int, v: SeccompAction) {
    && (v == KillProcess <==> exists rule | rule in rules :: !Covers(rules, native, nr, rule))
    && (v == Allow <==> forall rule | rule in rules :: rule.action == ActAllow && Covers(rules, native, nr, rule))
    && (v.Errno? ==> LastErrno(rules, native, nr, v.code))
  }

  lemma GivenByFields(rules: seq<Rule>, native: Table, nr: int)
    requires AllConvert(rules)
    ensures Allow in Given(rules, native, nr) <==> Asks(rules, native, nr, ActAllow)
    ensures KillProcess in Given(rules, native, nr) <==> Asks(rules, native, nr, ActKillProcess)
    ensures forall code: nat :: Errno(code) in Given(rules, native, nr) <==> AsksErrno(rules, native, nr, code)
    ensures Asks(rules, native, nr, ActErrno) <==> exists code: nat :: AsksErrno(rules, native, nr, code)
  {
    if Asks(rules, native, nr, ActErrno) {
      var rule :| rule in rules && rule.action == ActErrno && Names(rule, native, nr);
      assert RuleAction(rule).Ok?;
      assert AsksErrno(rules, native, nr, rule.errno.value);
    }
    if Asks(rules, native, nr, ActAllow) {
      var rule :| rule in rules && rule.action == ActAllow && Names(rule, native, nr);
      assert RuleAction(rule) == Ok(Allow);
    }
    if Asks(rules, native, nr, ActKillProcess) {
      var rule :| rule in rules && rule.action == ActKillProcess && Names(rule, native, nr);
      assert RuleAction(rule) == Ok(KillProcess);
    }
    forall code: nat | AsksErrno(rules, native, nr, code) ensures Errno(code) in Given(rules, native, nr) {
      var rule :| rule in rules && rule.action == ActErrno && rule.errno == Some(code) && Names(rule, native, nr);
      assert RuleAction(rule) == Ok(Errno(code));
    }
  }

  lemma ChosenErrnoIsLast(rules: seq<Rule>, native: Table, nr: int, code: nat)
    requires AllConvert(rules)
    requires Errno(code) in Given(rules, native, nr)
    requires forall a | a in Given(rules, native, nr) :: a == Errno(code) || Overrides(Errno(code), a)
    ensures LastErrno(rules, native, nr, code)
  {
    GivenByFields(rules, native, nr);
    forall other: nat | AsksErrno(rules, native, nr, other) && other != code
      ensures TextLess("Errno(" + Digits(other) + ")", "Errno(" + Digits(code) + ")")
    {
      assert Errno(other) in Given(rules, native, nr);
      assert Overrides(Errno(code), Errno(other));
      assert Key(Errno(other)) == "Errno(" + Digits(other) + ")";
      assert Key(Errno(code)) == "Errno(" + Digits(code) + ")";
    }
  }

  lemma MeaningByFields(rules: seq<Rule>, native: Table, nr: int, v: SeccompAction)
    requires AllConvert(rules) && Allow !in UsedActions(rules) && Means(rules, native, Allow, nr, v)
    ensures AllowingVerdict(rules, native, nr, v)
  {
    var given := Given(rules, native, nr);
    GivenByFields(rules, native, nr);
    assert Allow !in given;
    if v.Errno? {
      ChosenErrnoIsLast(rules, native, nr, v.code);
      assert AsksErrno(rules, native, nr, v.code);
    }
    if KillProcess in given && v != KillProcess {
      assert Overrides(v, KillProcess);
      KillIsNotOverridden(v);
    }
  }

  lemma KillIsNotOverridden(v: SeccompAction)
    requires v != KillProcess
    ensures !Overrides(v, KillProcess)
  {
  }

  lemma CoversMeansGiven(rules: seq<Rule>, native: Table, nr: int, rule: Rule)
    requires AllConvert(rules) && rule in rules
    ensures Covers(rules, native, nr, rule) <==> RuleAction(rule).value in Given(rules, native, nr)
  {
    if Covers(rules, native, nr, rule) {
      var other :| other in rules && other.action == rule.action
                   && (rule.action == ActErrno ==> other.errno == rule.errno) && Names(other, native, nr);
      assert RuleAction(other) == RuleAction(rule);
    }
    if RuleAction(rule).value in Given(rules, native, nr) {
      var other :| other in rules && RuleAction(other).Ok? && Names(other, native, nr)
                   && RuleAction(other).value == RuleAction(rule).value;
      assert other.action == rule.action && (rule.action == ActErrno ==> other.errno == rule.errno);
    }
  }

  lemma UncoveredKills(programs: seq<Filter>, rules: seq<Rule>, native: Table, nr: int)
    requires ProgramsMatch(programs, rules, native, KillProcess)
    ensures Stacked(programs, nr) == KillProcess <==> exists rule | rule in rules :: !Covers(rules, native, nr, rule)
  {
    EvaluateKeepsTheNewestOfTheStrictest(programs, nr, |programs|, Allow);
    if Stacked(programs, nr) == KillProcess {
      var i :| 0 <= i < |programs| && Verdict(programs[i], nr) == KillProcess;
      assert programs[i].onMatch in ActionsOf(programs);
      var rule :| rule in rules && RuleAction(rule) == Ok(programs[i].onMatch);
      GivenMeansGrouped(rules, native, nr, programs[i].onMatch);
      CoversMeansGiven(rules, native, nr, rule);
      assert !Covers(rules, native, nr, rule);
    }
    if rule :| rule in rules && !Covers(rules, native, nr, rule) {
      CoversMeansGiven(rules, native, nr, rule);
      var a := RuleAction(rule).value;
      assert a in UsedActions(rules);
      var i :| 0 <= i < |programs| && programs[i].onMatch == a;
      GivenMeansGrouped(rules, native, nr, a);
      StackedKills(programs, nr, i);
    }
  }

  lemma CoveredMatchesAll(programs: seq<Filter>, rules: seq<Rule>, native: Table, nr: int)
    requires ProgramsMatch(programs, rules, native, KillProcess)
    requires forall rule | rule in rules :: Covers(rules, native, nr, rule)
    ensures AllMatch(programs, nr) && Given(rules, native, nr) == UsedActions(rules)
  {
    forall a | a in UsedActions(rules) ensures a in Given(rules, native, nr) {
      var rule :| rule in rules && RuleAction(rule) == Ok(a);
      CoversMeansGiven(rules, native, nr, rule);
    }
    assert Given(rules, native, nr) <= UsedActions(rules);
    forall i | 0 <= i < |programs| ensures nr in programs[i].numbers {
      assert programs[i].onMatch in ActionsOf(programs);
      GivenMeansGrouped(rules, native, nr, programs[i].onMatch);
    }
  }

  lemma NoRulesVerdict(programs: seq<Filter>, native: Table, nr: int)
    requires ProgramsMatch(programs, [], native, KillProcess)
    ensures Stacked(programs, nr) == Allow
  {
    assert ActionsOf(programs) == {};
    assert forall i | 0 <= i < |programs| :: programs[i].onMatch in ActionsOf(programs);
  }

  lemma CoveredIsChosen(programs: seq<Filter>, rules: seq<Rule>, native: Table, nr: int)
    requires ProgramsMatch(programs, rules, native, KillProcess) && rules != []
    requires forall rule | rule in rules :: Covers(rules, native, nr, rule)
    ensures var v, given := Stacked(programs, nr), Given(rules, native, nr);
            v in given && forall a | a in given :: a == v || Overrides(v, a)
    ensures Given(rules, native, nr) == UsedActions(rules)
  {
    CoveredMatchesAll(programs, rules, native, nr);
    MatchedIsGiven(programs, rules, native, KillProcess, nr);
    assert RuleAction(rules[0]).value in UsedActions(rules);
    StackedChooses(programs, KillProcess, nr);
  }

  lemma AllowOverridesNothingElse(a: SeccompAction)
    requires a != Allow
    ensures !Overrides(Allow, a)
  {
  }

  lemma AllowIsChosenExactlyWhen(rules: seq<Rule>, v: SeccompAction)
    requires AllConvert(rules) && v in UsedActions(rules)
    requires forall a | a in UsedActions(rules) :: a == v || Overrides(v, a)
    ensures v == Allow <==> forall rule | rule in rules :: rule.action == ActAllow
  {
    if v == Allow {
      forall rule | rule in rules ensures rule.action == ActAllow {
        assert RuleAction(rule).value in UsedActions(rules);
        if RuleAction(rule).value != Allow {
          AllowOverridesNothingElse(RuleAction(rule).value);
        }
      }
    } else {
      var rule :| rule in rules && RuleAction(rule).Ok? && RuleAction(rule).value == v;
      assert rule.action != ActAllow;
    }
  }

  lemma CoveredVerdict(programs: seq<Filter>, rules: seq<Rule>, native: Table, nr: int)
    requires ProgramsMatch(programs, rules, native, KillProcess)
    requires forall rule | rule in rules :: Covers(rules, native, nr, rule)
    ensures var v := Stacked(programs, nr);
            && (v == Allow <==> forall rule | rule in rules :: rule.action == ActAllow)
            && (v.Errno? ==> LastErrno(rules, native, nr, v.code))
  {
    if rules == [] {
      NoRulesVerdict(programs, native, nr);
    } else {
      CoveredIsChosen(programs, rules, native, nr);
      AllowIsChosenExactlyWhen(rules, Stacked(programs, nr));
      if Stacked(programs, nr).Errno? {
        ChosenErrnoIsLast(rules, native, nr, Stacked(programs, nr).code);
      }
    }
  }

  lemma KillingByFields(programs: seq<Filter>, rules: seq<Rule>, native: Table, nr: int)
    requires ProgramsMatch(programs, rules, native, KillProcess)
    ensures KillingVerdict(rules, native, nr, Stacked(programs, nr))
  {
    UncoveredKills(programs, rules, native, nr);
    if forall rule | rule in rules :: Covers(rules, native, nr, rule) {
      CoveredVerdict(programs, rules, native, nr);
    }
  }

  lemma CompiledVerdicts(profile: Profile, tag: string, tables: map<string, Table>, programs: seq<Filter>)
    requires Compiles(profile, tag, tables)
    requires ProgramsMatch(programs, profile.rules, tables[tag], ToAction(profile.defaultAction, None).value)
    ensures profile.defaultAction == ActAllow ==>
              forall nr :: AllowingVerdict(profile.rules, tables[tag], nr, Stacked(programs, nr))
    ensures profile.defaultAction == ActKillProcess ==>
              forall nr :: KillingVerdict(profile.rules, tables[tag], nr, Stacked(programs, nr))
  {
    var rules, native := profile.rules, tables[tag];
    if profile.defaultAction == ActAllow {
      StackingIsEquivalentExactlyWhen(programs, rules, native, Allow);
      forall nr ensures AllowingVerdict(rules, native, nr, Stacked(programs, nr)) {
        assert Means(rules, native, Allow, nr, Stacked(programs, nr));
        MeaningByFields(rules, native, nr, Stacked(programs, nr));
      }
    } else {
      forall nr ensures KillingVerdict(rules, native, nr, Stacked(programs, nr)) {
        KillingByFields(programs, rules, native, nr);
      }
    }
  }

  predicate NamedNotNative(rules: seq<Rule>, native: Table, name: string) {
    name !in native && exists rule | rule in rules :: name in rule.names
  }

  /** Nothing is dropped and nothing is added: every native name of a rule is matched by its action's
      program, only numbers that a rule names are matched, and the names reported are exactly the
      rules' names that are not native. */
  lemma NothingDroppedNothingAdded(programs: seq<Filter>, rules: seq<Rule>, native: Table, default: SeccompAction)
    requires ProgramsMatch(programs, rules, native, default)
    ensures forall rule, name | rule in rules && name in rule.names && name in native ::
              RuleAction(rule).value in Matched(programs, native[name])
    ensures forall nr, a | a in Matched(programs, nr) :: a in Given(rules, native, nr)
    ensures forall name :: name in Unreachable(rules, native) <==> NamedNotNative(rules, native, name)
  {
    forall rule, name | rule in rules && name in rule.names && name in native
      ensures RuleAction(rule).value in Matched(programs, native[name])
    {
      MatchedIsGiven(programs, rules, native, default, native[name]);
      assert Names(rule, native, native[name]);
    }
    forall nr, a | a in Matched(programs, nr) ensures a in Given(rules, native, nr) {
      MatchedIsGiven(programs, rules, native, default, nr);
    }
    forall name ensures name in Unreachable(rules, native) <==> NamedNotNative(rules, native, name) {
      ReportedExactly(rules, native, name);
    }
  }

  /** What a compiled profile reports is known to another declared architecture. */
  lemma ReportedIsKnownElsewhere(profile: Profile, tag: string, tables: map<string, Table>, name: string)
    requires Compiles(profile, tag, tables) && name in Unreachable(profile.rules, tables[tag])
    ensures KnownElsewhere(profile, tag, tables, name)
  {
    ReportedExactly(profile.rules, tables[tag], name);
    var rule :| rule in profile.rules && name in rule.names;
  }

  lemma ReportedExactly(rules: seq<Rule>, native: Table, name: string)
    ensures name in Unreachable(rules, native) <==> NamedNotNative(rules, native, name)
  {
    if NamedNotNative(rules, native, name) {
      var rule :| rule in rules && name in rule.names;
      ReportsEveryName(rules, native, rule, name);
    }
    if name in Unreachable(rules, native) {
      ReportsOnlyNames(rules, native, name);
    }
  }

  lemma {:induction false} ReportsOnlyNames(rules: seq<Rule>, native: Table, name: string)
    requires name in Unreachable(rules, native)
    ensures NamedNotNative(rules, native, name)
  {
    var n := |rules| - 1;
    if name in Unreachable(rules[..n], native) {
      ReportsOnlyNames(rules[..n], native, name);
      var rule :| rule in rules[..n] && name in rule.names;
      assert rule in rules;
    } else {
      NotNativeOnly(rules[n].names, native, name);
      assert rules[n] in rules;
    }
  }

  lemma {:induction false} NotNativeOnly(names: seq<string>, native: Table, name: string)
    requires name in NotNative(names, native)
    ensures name in names && name !in native
  {
    var n := |names| - 1;
    if name in NotNative(names[..n], native) {
      NotNativeOnly(names[..n], native, name);
    }
  }

  lemma {:induction false} ReportsEveryName(rules: seq<Rule>, native: Table, rule: Rule, name: string)
    requires rule in rules && name in rule.names && name !in native
    ensures name in Unreachable(rules, native)
  {
    var n := |rules| - 1;
    assert rules == rules[..n] + [rules[n]];
    if rule == rules[n] {
      NotNativeHolds(rule.names, native, name);
    } else {
      ReportsEveryName(rules[..n], native, rule, name);
    }
  }

  lemma {:induction false} NotNativeHolds(names: seq<string>, native: Table, name: string)
    requires name in names && name !in native
    ensures name in NotNative(names, native)
  {
    var n := |names| - 1;
    assert names == names[..n] + [names[n]];
    if name != names[n] {
      NotNativeHolds(names[..n], native, name);
    }
  }
}
