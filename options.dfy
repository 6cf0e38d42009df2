/** Option elicitation (lines 119-140 of `execute`): the entries of the
    manifest's `enable` table are visited in declared order; the one named
    like the package is forced on at the top level of the result, every
    other one is asked as a yes/no question and recorded under `enable`. */
module Options {
  import opened Model

  const EnableKey: string := "enable"

  /** A `ConfirmationQuestion`: its text and its default answer. */
  datatype Question = Question(text: string, default: bool)

  /** `$opt->prompt . ' (default: ' . ($opt->default ? 'yes' : 'no') . '): '`. */
  function QuestionFor(d: OptionDecl): (q: Question)
    ensures q.default == d.default && d.prompt <= q.text
  {
    Question(d.prompt + " (default: " + (if d.default then "yes" else "no") + "): ", d.default)
  }

  /** One `(object) ['type' => ..., 'input' => ...]` under `enable`, with the
      option name it is keyed by. */
  datatype Row = Row(name: string, kind: string, input: bool)

  /** A top-level value of `$options_value`: `true` for a forced option, or
      the `enable` table. */
  datatype Slot = Flag(on: bool) | Table(rows: seq<Row>)

  type OptionsValue = map<string, Slot>

  /** The question helper: the answer given to the `k`-th question asked.
      A non-interactive console answers every question with its default. */
  type Oracle = (nat, Question) -> bool

  /** The loop's state: `$options_value`, the questions asked so far, and
      whether PHP has thrown. */
  datatype LoopState = LoopState(value: OptionsValue, questions: seq<Question>, failed: bool)

  /** One iteration of the `foreach`. Writing `$options_value['enable'][$name]`
      when `$options_value['enable']` is `true` (a package named `enable`
      whose own option came first) throws "Cannot use a scalar value as an
      array"; the question has been asked by then, the right-hand side being
      evaluated first. */
  function Visit(s: LoopState, d: OptionDecl, pkgName: string, ask: Oracle): LoopState {
    if s.failed then s
    else if d.name == pkgName then s.(value := s.value[d.name := Flag(true)])
    else
      var q := QuestionFor(d);
      var row := Row(d.name, d.kind, ask(|s.questions|, q));
      var asked := s.questions + [q];
      if EnableKey !in s.value then s.(value := s.value[EnableKey := Table([row])], questions := asked)
      else match s.value[EnableKey]
        case Flag(_) => s.(questions := asked, failed := true)
        case Table(rows) => s.(value := s.value[EnableKey := Table(rows + [row])], questions := asked)
  }

  /** The question text tells two entries apart exactly when their prompts
      or their defaults differ. */
  lemma QuestionDetermines(d1: OptionDecl, d2: OptionDecl)
    ensures QuestionFor(d1) == QuestionFor(d2) <==> d1.prompt == d2.prompt && d1.default == d2.default
  {
    if QuestionFor(d1) == QuestionFor(d2) {
      var tail := " (default: " + (if d1.default then "yes" else "no") + "): ";
      assert QuestionFor(d1).text == d1.prompt + tail;
      assert QuestionFor(d2).text == d2.prompt + tail;
      assert |d1.prompt| == |d2.prompt|;
      assert d1.prompt == QuestionFor(d1).text[..|d1.prompt|];
      assert d2.prompt == QuestionFor(d2).text[..|d2.prompt|];
    }
  }

  /** One pass of the loop body: after a throw nothing changes; the package's
      own entry sets its top-level slot to `true` and asks nothing; any other
      entry asks its question, then throws exactly when `enable` already holds
      `true`, and otherwise appends its row, keyed to that question's answer,
      to the `enable` table. No other slot changes. */
  lemma VisitStep(s: LoopState, d: OptionDecl, pkgName: string, ask: Oracle)
    ensures var t := Visit(s, d, pkgName, ask);
      && (s.failed ==> t == s)
      && (!s.failed && d.name == pkgName ==>
            && t.questions == s.questions && !t.failed
            && d.name in t.value && t.value[d.name] == Flag(true)
            && forall k :: k != d.name ==> (k in t.value <==> k in s.value) && (k in s.value ==> t.value[k] == s.value[k]))
      && (!s.failed && d.name != pkgName ==>
            && t.questions == s.questions + [QuestionFor(d)]
            && (t.failed <==> EnableKey in s.value && s.value[EnableKey].Flag?)
            && (forall k :: k != EnableKey ==> (k in t.value <==> k in s.value) && (k in s.value ==> t.value[k] == s.value[k]))
            && (!t.failed ==>
                  var row := Row(d.name, d.kind, ask(|s.questions|, QuestionFor(d)));
                  t.value[EnableKey] == Table((if EnableKey in s.value then s.value[EnableKey].rows else []) + [row])))
  {
  }

  /** The loop run over `decls` from the empty array. */
  function VisitAll(decls: seq<OptionDecl>, pkgName: string, ask: Oracle): LoopState {
    if decls == [] then LoopState(map[], [], false)
    else Visit(VisitAll(decls[..|decls| - 1], pkgName, ask), decls[|decls| - 1], pkgName, ask)
  }

  /** The entries that are asked: all but the one named like the package. */
  function NonSelf(decls: seq<OptionDecl>, pkgName: string): (r: seq<OptionDecl>)
    ensures forall i :: 0 <= i < |r| ==> r[i].name != pkgName && r[i] in decls
    ensures |r| <= |decls|
  {
    if decls == [] then []
    else
      var last := decls[|decls| - 1];
      NonSelf(decls[..|decls| - 1], pkgName) + (if last.name == pkgName then [] else [last])
  }

  predicate Mentions(decls: seq<OptionDecl>, name: string) {
    exists i :: 0 <= i < |decls| && decls[i].name == name
  }

  function Questions(ds: seq<OptionDecl>): (r: seq<Question>)
    ensures |r| == |ds|
  {
    seq(|ds|, i requires 0 <= i < |ds| => QuestionFor(ds[i]))
  }

  /** The `enable` rows of the asked entries: the `k`-th gets the `k`-th answer. */
  function Answers(ds: seq<OptionDecl>, ask: Oracle): (r: seq<Row>)
    ensures |r| == |ds|
  {
    seq(|ds|, i requires 0 <= i < |ds| => Row(ds[i].name, ds[i].kind, ask(i, QuestionFor(ds[i]))))
  }

  /** The shape of `$options_value`: the package's own option as `true` at the
      top level, the asked ones in declared order under `enable`. */
  function Expected(decls: seq<OptionDecl>, pkgName: string, ask: Oracle): OptionsValue {
    var asked := NonSelf(decls, pkgName);
    (if Mentions(decls, pkgName) then map[pkgName := Flag(true)] else map[])
    + (if |asked| > 0 then map[EnableKey := Table(Answers(asked, ask))] else map[])
  }

  lemma MentionsSnoc(pre: seq<OptionDecl>, d: OptionDecl, name: string)
    ensures Mentions(pre + [d], name) <==> Mentions(pre, name) || d.name == name
  {
    var decls := pre + [d];
    if Mentions(decls, name) && d.name != name {
      var i :| 0 <= i < |decls| && decls[i].name == name;
      assert i < |pre| && pre[i] == decls[i];
    }
    if Mentions(pre, name) {
      var i :| 0 <= i < |pre| && pre[i].name == name;
      assert decls[i] == pre[i];
    }
    if d.name == name {
      assert decls[|pre|] == d;
    }
  }

  lemma NonSelfSnoc(pre: seq<OptionDecl>, d: OptionDecl, pkgName: string)
    ensures NonSelf(pre + [d], pkgName) == NonSelf(pre, pkgName) + (if d.name == pkgName then [] else [d])
  {
    assert (pre + [d])[..|pre + [d]| - 1] == pre;
  }

  /** The package's own entry adds the top-level `true` and nothing else. */
  lemma ExpectedOwn(pre: seq<OptionDecl>, d: OptionDecl, pkgName: string, ask: Oracle)
    requires pkgName != EnableKey && d.name == pkgName
    ensures Visit(LoopState(Expected(pre, pkgName, ask), Questions(NonSelf(pre, pkgName)), false), d, pkgName, ask)
      == LoopState(Expected(pre + [d], pkgName, ask), Questions(NonSelf(pre + [d], pkgName)), false)
  {
    MentionsSnoc(pre, d, pkgName);
    NonSelfSnoc(pre, d, pkgName);
    assert NonSelf(pre + [d], pkgName) == NonSelf(pre, pkgName);
  }

  lemma QuestionsSnoc(ds: seq<OptionDecl>, d: OptionDecl)
    ensures Questions(ds + [d]) == Questions(ds) + [QuestionFor(d)]
  {
    assert forall i :: 0 <= i < |ds| ==> (ds + [d])[i] == ds[i];
  }

  lemma AnswersSnoc(ds: seq<OptionDecl>, d: OptionDecl, ask: Oracle)
    ensures Answers(ds + [d], ask) == Answers(ds, ask) + [Row(d.name, d.kind, ask(|ds|, QuestionFor(d)))]
  {
    assert forall i :: 0 <= i < |ds| ==> (ds + [d])[i] == ds[i];
  }

  /** An asked entry extends the asked entries, their questions and their
      rows by one, and leaves the own entry's presence alone. */
  lemma AskedSnoc(pre: seq<OptionDecl>, d: OptionDecl, pkgName: string, ask: Oracle)
    requires d.name != pkgName
    ensures var before, after := NonSelf(pre, pkgName), NonSelf(pre + [d], pkgName);
      && after == before + [d]
      && Questions(after) == Questions(before) + [QuestionFor(d)]
      && Answers(after, ask) == Answers(before, ask) + [Row(d.name, d.kind, ask(|before|, QuestionFor(d)))]
      && Mentions(pre + [d], pkgName) == Mentions(pre, pkgName)
  {
    MentionsSnoc(pre, d, pkgName);
    NonSelfSnoc(pre, d, pkgName);
    QuestionsSnoc(NonSelf(pre, pkgName), d);
    AnswersSnoc(NonSelf(pre, pkgName), d, ask);
  }

  /** An asked entry appends its question and its row. */
  lemma ExpectedAsked(pre: seq<OptionDecl>, d: OptionDecl, pkgName: string, ask: Oracle)
    requires pkgName != EnableKey && d.name != pkgName
    ensures Visit(LoopState(Expected(pre, pkgName, ask), Questions(NonSelf(pre, pkgName)), false), d, pkgName, ask)
      == LoopState(Expected(pre + [d], pkgName, ask), Questions(NonSelf(pre + [d], pkgName)), false)
  {
    AskedSnoc(pre, d, pkgName, ask);
    var before, after := NonSelf(pre, pkgName), NonSelf(pre + [d], pkgName);
    var row := Row(d.name, d.kind, ask(|before|, QuestionFor(d)));
    var own: OptionsValue := if Mentions(pre, pkgName) then map[pkgName := Flag(true)] else map[];
    assert EnableKey !in own;
    var old_rows, new_rows := Answers(before, ask), Answers(after, ask);
    var s := LoopState(Expected(pre, pkgName, ask), Questions(before), false);
    if |before| == 0 {
      assert s.value == own;
      assert new_rows == [row];
      assert own[EnableKey := Table([row])] == own + map[EnableKey := Table([row])];
    } else {
      assert s.value == own + map[EnableKey := Table(old_rows)];
      assert s.value[EnableKey := Table(new_rows)] == own + map[EnableKey := Table(new_rows)];
    }
  }

  /** For every package not named `enable`, the loop builds exactly the
      expected shape, asks exactly one question per non-forced entry, in
      declared order, and never throws. */
  lemma {:induction false} VisitAllShape(decls: seq<OptionDecl>, pkgName: string, ask: Oracle)
    requires pkgName != EnableKey
    ensures VisitAll(decls, pkgName, ask)
      == LoopState(Expected(decls, pkgName, ask), Questions(NonSelf(decls, pkgName)), false)
  {
    if decls == [] {
      assert Expected(decls, pkgName, ask) == map[];
    } else {
      var pre, d := decls[..|decls| - 1], decls[|decls| - 1];
      assert decls == pre + [d];
      VisitAllShape(pre, pkgName, ask);
      if d.name == pkgName {
        ExpectedOwn(pre, d, pkgName, ask);
      } else {
        ExpectedAsked(pre, d, pkgName, ask);
      }
    }
  }

  /** A thrown loop stays thrown: the rest of the entries change nothing. */
  lemma {:induction false} FailedSticks(decls: seq<OptionDecl>, k: nat, pkgName: string, ask: Oracle)
    requires k <= |decls| && VisitAll(decls[..k], pkgName, ask).failed
    ensures VisitAll(decls, pkgName, ask) == VisitAll(decls[..k], pkgName, ask)
    decreases |decls| - k
  {
    if k < |decls| {
      assert decls[..k + 1][..k] == decls[..k];
      FailedSticks(decls, k + 1, pkgName, ask);
    } else {
      assert decls[..k] == decls;
    }
  }

  /** The declared entries of the `enable` group; a missing group is iterated
      as nothing. */
  function EnableDecls(options: map<string, OptionTable>): seq<OptionDecl> {
    if EnableKey in options then options[EnableKey] else []
  }

  /** Lines 121-140 as written. An empty `getConfigureOptions()` array is
      falsy and leaves `$options_value` null. */
  method Elicit(pkgName: string, options: map<string, OptionTable>, ask: Oracle)
    returns (value: Option<OptionsValue>, questions: seq<Question>, failed: bool)
    ensures |options| == 0 ==> value == None && questions == [] && !failed
    ensures |options| > 0 ==>
      value.Some? && LoopState(value.value, questions, failed) == VisitAll(EnableDecls(options), pkgName, ask)
    ensures |options| > 0 && pkgName != EnableKey ==>
      && value == Some(Expected(EnableDecls(options), pkgName, ask))
      && questions == Questions(NonSelf(EnableDecls(options), pkgName))
      && !failed
  {
    if |options| == 0 {
      return None, [], false;
    }
    var decls := EnableDecls(options);
    var v: OptionsValue := map[];
    questions, failed := [], false;
    var i := 0;
    while i < |decls| && !failed
      invariant 0 <= i <= |decls|
      invariant LoopState(v, questions, failed) == VisitAll(decls[..i], pkgName, ask)
    {
      var d := decls[i];
      ghost var before := LoopState(v, questions, failed);
      assert decls[..i + 1][..i] == decls[..i] && decls[..i + 1][i] == d;
      if d.name == pkgName {
        v := v[d.name := Flag(true)];
      } else {
        var q := QuestionFor(d);
        var answer := ask(|questions|, q);
        questions := questions + [q];
        var row := Row(d.name, d.kind, answer);
        if EnableKey !in v {
          v := v[EnableKey := Table([row])];
        } else if v[EnableKey].Flag? {
          failed := true;
        } else {
          v := v[EnableKey := Table(v[EnableKey].rows + [row])];
        }
      }
      assert LoopState(v, questions, failed) == Visit(before, d, pkgName, ask);
      i := i + 1;
    }
    if failed {
      FailedSticks(decls, i, pkgName, ask);
    } else {
      assert decls[..i] == decls;
    }
    if pkgName != EnableKey {
      VisitAllShape(decls, pkgName, ask);
    }
    value := Some(v);
  }

  /** A non-interactive console keeps every asked entry at its declared
      default, while the package's own entry is still forced on. */
  lemma NonInteractiveKeepsDefaults(decls: seq<OptionDecl>, pkgName: string, ask: Oracle)
    requires pkgName != EnableKey
    requires forall k: nat, q: Question :: ask(k, q) == q.default
    ensures var value := VisitAll(decls, pkgName, ask).value;
      var asked := NonSelf(decls, pkgName);
      && (Mentions(decls, pkgName) ==> pkgName in value && value[pkgName] == Flag(true))
      && (|asked| > 0 ==> EnableKey in value && value[EnableKey] == Table(seq(|asked|, i requires 0 <= i < |asked| =>
                                                          Row(asked[i].name, asked[i].kind, asked[i].default))))
  {
    VisitAllShape(decls, pkgName, ask);
    var asked := NonSelf(decls, pkgName);
    forall i | 0 <= i < |asked|
      ensures Answers(asked, ask)[i] == Row(asked[i].name, asked[i].kind, asked[i].default)
    {
      assert ask(i, QuestionFor(asked[i])) == QuestionFor(asked[i]).default;
    }
    assert Answers(asked, ask) == seq(|asked|, i requires 0 <= i < |asked| =>
                                        Row(asked[i].name, asked[i].kind, asked[i].default));
  }

  /** A package named `enable`: a prompted entry followed by the package's own
      entry ends with the table overwritten by `true`, the answer lost. */
  lemma EnableNamedPackageLosesAnswers(other: OptionDecl, own: OptionDecl, ask: Oracle)
    requires own.name == EnableKey && other.name != EnableKey
    ensures VisitAll([other, own], EnableKey, ask)
      == LoopState(map[EnableKey := Flag(true)], [QuestionFor(other)], false)
  {
    assert [other, own][..1] == [other];
    assert [other][..0] == [];
    var row := Row(other.name, other.kind, ask(0, QuestionFor(other)));
    var first := VisitAll([other], EnableKey, ask);
    assert VisitAll([other][..0], EnableKey, ask) == LoopState(map[], [], false);
    assert first == Visit(LoopState(map[], [], false), other, EnableKey, ask);
    assert [] + [QuestionFor(other)] == [QuestionFor(other)];
    assert first == LoopState(map[EnableKey := Table([row])], [QuestionFor(other)], false);
    assert first.value[EnableKey := Flag(true)] == map[EnableKey := Flag(true)];
  }

  /** A package named `enable` whose own entry comes first throws on the next
      asked entry. */
  lemma EnableNamedPackageThrows(own: OptionDecl, other: OptionDecl, ask: Oracle)
    requires own.name == EnableKey && other.name != EnableKey
    ensures VisitAll([own, other], EnableKey, ask).failed
  {
    assert [own, other][..1] == [own];
    assert [own][..0] == [];
  }
}
