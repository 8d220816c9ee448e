/**
 * Properties of the node-registration model: which options the command
 * carries and in what order, how values are rendered, and which calls a
 * run makes on the server client.
 */
module RegisterProperties {
  import opened Values
  import opened Register

  /** The tokens of the creation-only parameters. */
  const CreationOnlyTokens: seq<string> := ["Type", "BKREPLRuledefault", "ARREPLRuledefault", "SPREPLRuledefault"]

  /** The number of table entries whose option is sent. */
  function CountSent(p: Params, found: bool, table: seq<(string, string)>): nat
  {
    if table == [] then 0
    else CountSent(p, found, table[..|table| - 1]) + if Emits(p, found, table[|table| - 1].0) then 1 else 0
  }

  // ---------------------------------------------------------------------
  // One option per sent parameter, in table order

  /** There is one segment for each entry that is sent. */
  lemma {:induction false} SegmentsCount(p: Params, found: bool, table: seq<(string, string)>)
    ensures |Segments(p, found, table)| == CountSent(p, found, table)
  {
    if table != [] {
      SegmentsCount(p, found, table[..|table| - 1]);
    }
  }

  /** A sent entry's option sits at the slot numbered by the sent entries before it. */
  lemma {:induction false} SegmentAt(p: Params, found: bool, table: seq<(string, string)>, i: nat)
    requires i < |table| && Emits(p, found, table[i].0)
    ensures CountSent(p, found, table[..i]) < |Segments(p, found, table)|
    ensures Segments(p, found, table)[CountSent(p, found, table[..i])]
         == (table[i].1, Format(table[i].0, p[table[i].0]))
  {
    var n := |table| - 1;
    var front := table[..n];
    var entry := (table[i].1, Format(table[i].0, p[table[i].0]));
    assert Segments(p, found, table) == Segments(p, found, front) + Sent(p, found, table[n]);
    if i == n {
      assert front == table[..i];
      SegmentsCount(p, found, front);
      assert Sent(p, found, table[n]) == [entry];
    } else {
      assert front[..i] == table[..i];
      assert front[i] == table[i];
      SegmentAt(p, found, front, i);
    }
  }

  /** A sent entry's slot comes before the slot of every sent entry after it. */
  lemma {:induction false} SlotsIncrease(p: Params, found: bool, table: seq<(string, string)>, i: nat, j: nat)
    requires i < j <= |table| && Emits(p, found, table[i].0)
    ensures CountSent(p, found, table[..i]) < CountSent(p, found, table[..j])
  {
    assert table[..j][..j - 1] == table[..j - 1];
    if j > i + 1 {
      SlotsIncrease(p, found, table, i, j - 1);
    }
  }

  /** Every segment is the option of some entry that is sent. */
  lemma {:induction false} SegmentsFromTable(p: Params, found: bool, table: seq<(string, string)>, k: nat)
    requires k < |Segments(p, found, table)|
    ensures exists i :: 0 <= i < |table| && Emits(p, found, table[i].0)
                        && Segments(p, found, table)[k] == (table[i].1, Format(table[i].0, p[table[i].0]))
  {
    var n := |table| - 1;
    var front := table[..n];
    if k < |Segments(p, found, front)| {
      SegmentsFromTable(p, found, front, k);
      var i :| 0 <= i < |front| && Emits(p, found, front[i].0)
               && Segments(p, found, front)[k] == (front[i].1, Format(front[i].0, p[front[i].0]));
      assert front[i] == table[i];
    } else {
      assert Segments(p, found, table)[k] == (table[n].1, Format(table[n].0, p[table[n].0]));
    }
  }

  // ---------------------------------------------------------------------
  // Facts about the fixed tables

  lemma CreationOnlyTokensAreNotOnUpdate()
    ensures forall i :: 0 <= i < |OptionsParams| && OptionsParams[i].1 in CreationOnlyTokens ==>
              OptionsParams[i].0 in NotOnUpdate
    ensures forall i :: 0 <= i < |OptionsParams| && OptionsParams[i].0 in NotOnUpdate ==>
              OptionsParams[i].1 in CreationOnlyTokens
  {
  }

  lemma AuthenticationTokenEntry()
    ensures forall i :: 0 <= i < |OptionsParams| && OptionsParams[i].1 == "AUTHentication" ==>
              OptionsParams[i].0 == "auth_method"
    ensures OptionsParams[31] == ("auth_method", "AUTHentication")
    ensures forall i :: 0 <= i < |OptionsParams| ==> OptionsParams[i].0 != "authentication"
  {
  }

  lemma NodeIsNoTableName()
    ensures forall i :: 0 <= i < |OptionsParams| ==> OptionsParams[i].0 != "node"
  {
  }

  lemma StateIsNoTableName()
    ensures forall i :: 0 <= i < |OptionsParams| ==> OptionsParams[i].0 != "state"
  {
  }

  lemma PasswordIsNoTableName()
    ensures forall i :: 0 <= i < |OptionsParams| ==> OptionsParams[i].0 != "node_password"
  {
  }

  lemma ExpiryIsFirstTableName()
    ensures OptionsParams[0] == ("node_password_expiry", "PASSExp")
    ensures forall i :: 1 <= i < |OptionsParams| ==> OptionsParams[i].0 != "node_password_expiry"
  {
  }

  // ---------------------------------------------------------------------
  // Creation-only parameters

  /** On an existing node the creation-only tokens are never sent, whatever is supplied. */
  lemma CreationOnlyNeverSentOnUpdate(p: Params)
    ensures forall k :: 0 <= k < |Segments(p, true, OptionsParams)| ==>
              Segments(p, true, OptionsParams)[k].0 !in CreationOnlyTokens
  {
    CreationOnlyTokensAreNotOnUpdate();
    forall k | 0 <= k < |Segments(p, true, OptionsParams)|
      ensures Segments(p, true, OptionsParams)[k].0 !in CreationOnlyTokens
    {
      SegmentsFromTable(p, true, OptionsParams, k);
      var i :| 0 <= i < |OptionsParams| && Emits(p, true, OptionsParams[i].0)
               && Segments(p, true, OptionsParams)[k]
                  == (OptionsParams[i].1, Format(OptionsParams[i].0, p[OptionsParams[i].0]));
    }
  }

  /** On a new node every set parameter, creation-only ones included, is sent. */
  lemma EverySetParameterSentOnCreate(p: Params, i: nat)
    requires i < |OptionsParams| && OptionsParams[i].0 in p
    ensures (OptionsParams[i].1, Format(OptionsParams[i].0, p[OptionsParams[i].0]))
            in Segments(p, false, OptionsParams)
  {
    SegmentAt(p, false, OptionsParams, i);
  }

  /** The options of an update are those of a creation from the same parameters minus the creation-only ones. */
  lemma {:induction false} UpdateDropsOnlyCreationOnly(p: Params, table: seq<(string, string)>)
    ensures Segments(p, true, table) == Segments(p - set n | n in NotOnUpdate, false, table)
  {
    if table != [] {
      var q := p - set n | n in NotOnUpdate;
      var name := table[|table| - 1].0;
      assert Emits(p, true, name) <==> Emits(q, false, name);
      UpdateDropsOnlyCreationOnly(p, table[..|table| - 1]);
    }
  }

  // ---------------------------------------------------------------------
  // The auth_method / authentication mismatch

  /** `AUTHentication=` is sent exactly when the parameters hold an `auth_method` entry. */
  lemma AuthenticationSentOnlyForAuthMethod(p: Params, found: bool)
    ensures (exists k :: 0 <= k < |Segments(p, found, OptionsParams)|
                         && Segments(p, found, OptionsParams)[k].0 == "AUTHentication")
        <==> "auth_method" in p
  {
    AuthenticationTokenEntry();
    var segs := Segments(p, found, OptionsParams);
    if "auth_method" in p {
      SegmentAt(p, found, OptionsParams, 31);
    }
    if exists k :: 0 <= k < |segs| && segs[k].0 == "AUTHentication" {
      var k :| 0 <= k < |segs| && segs[k].0 == "AUTHentication";
      SegmentsFromTable(p, found, OptionsParams, k);
      var i :| 0 <= i < |OptionsParams| && Emits(p, found, OptionsParams[i].0)
               && segs[k] == (OptionsParams[i].1, Format(OptionsParams[i].0, p[OptionsParams[i].0]));
    }
  }

  /** Segments do not depend on a parameter that no table entry names. */
  lemma {:induction false} SegmentsIgnore(p: Params, found: bool, table: seq<(string, string)>, key: string)
    requires forall i :: 0 <= i < |table| ==> table[i].0 != key
    ensures Segments(p, found, table) == Segments(p - {key}, found, table)
  {
    if table != [] {
      var front := table[..|table| - 1];
      assert forall i :: 0 <= i < |front| ==> front[i] == table[i];
      SegmentsIgnore(p, found, front, key);
    }
  }

  /** The declared `authentication` argument has no effect on the option string. */
  lemma AuthenticationArgumentIgnored(p: Params, found: bool)
    ensures OptionString(p, found) == OptionString(p - {"authentication"}, found)
  {
    AuthenticationTokenEntry();
    SegmentsIgnore(p, found, OptionsParams, "authentication");
  }

  // ---------------------------------------------------------------------
  // Layout of the option string

  /** The options part is empty exactly when nothing is sent, and otherwise starts with a space. */
  lemma {:induction false} JoinShape(segs: seq<(string, string)>)
    ensures Join(segs) == "" <==> segs == []
    ensures segs != [] ==> Join(segs)[0] == ' '
  {
    if segs != [] {
      var front := segs[..|segs| - 1];
      JoinShape(front);
    }
  }

  /** The options of a prefix of the segments form a prefix of the options. */
  lemma {:induction false} JoinPrefix(segs: seq<(string, string)>, n: nat)
    requires n <= |segs|
    ensures |Join(segs[..n])| <= |Join(segs)|
    ensures Join(segs)[..|Join(segs[..n])|] == Join(segs[..n])
  {
    if n < |segs| {
      var front := segs[..|segs| - 1];
      assert front[..n] == segs[..n];
      JoinPrefix(front, n);
    } else {
      assert segs[..n] == segs;
    }
  }

  /** Each segment appears in the options as ` TOKEN=value`, after the segments before it. */
  lemma JoinContains(segs: seq<(string, string)>, k: nat)
    requires k < |segs|
    ensures |Join(segs[..k])| + |Piece(segs[k])| <= |Join(segs)|
    ensures Join(segs)[|Join(segs[..k])|..|Join(segs[..k])| + |Piece(segs[k])|] == Piece(segs[k])
  {
    var upto := segs[..k + 1];
    assert upto[..k] == segs[..k];
    JoinPrefix(segs, k + 1);
  }

  /** The option string is the password when it is truthy, then zero or more space-led options. */
  lemma OptionStringShape(p: Params, found: bool)
    ensures var s := OptionString(p, found);
      var pw := PasswordPrefix(p);
      && (WarnsAboutPassword(p) ==> pw == ToText(p["node_password"]) && pw != "")
      && (!WarnsAboutPassword(p) ==> pw == "")
      && |pw| <= |s| && s[..|pw|] == pw
      && (|s| == |pw| <==> Segments(p, found, OptionsParams) == [])
      && (|s| > |pw| ==> s[|pw|] == ' ')
  {
    var p0 := p;
    if WarnsAboutPassword(p) {
      var v := p["node_password"];
      assert ToText(v) != "" by {
        match v
        case Str(t) =>
        case Int(i) =>
        case Bool(b) =>
      }
    }
    JoinShape(Segments(p, found, OptionsParams));
  }

  lemma SliceAfter(a: string, b: string, x: nat, n: nat)
    requires x + n <= |b|
    ensures (a + b)[|a| + x..][..n] == b[x..x + n]
  {
    assert (a + b)[|a| + x..] == b[x..];
  }

  /** Every parameter that is sent appears in the option string as ` TOKEN=value`, after the password. */
  lemma SentOptionAppears(p: Params, found: bool, i: nat)
    requires i < |OptionsParams| && Emits(p, found, OptionsParams[i].0)
    ensures var s := OptionString(p, found);
      var piece := " " + OptionsParams[i].1 + "=" + Format(OptionsParams[i].0, p[OptionsParams[i].0]);
      exists off :: |PasswordPrefix(p)| <= off && off + |piece| <= |s| && s[off..][..|piece|] == piece
  {
    var segs := Segments(p, found, OptionsParams);
    var k := CountSent(p, found, OptionsParams[..i]);
    SegmentAt(p, found, OptionsParams, i);
    JoinContains(segs, k);
    var pw := PasswordPrefix(p);
    var x := |Join(segs[..k])|;
    var piece := Piece(segs[k]);
    SliceAfter(pw, Join(segs), x, |piece|);
    var s := OptionString(p, found);
    assert s[|pw| + x..][..|piece|] == piece;
  }

  // ---------------------------------------------------------------------
  // Value rendering

  lemma LowerBooleanText(b: bool)
    ensures Lower(ToText(Bool(b))) == if b then "true" else "false"
  {
    if b {
      LowerIsWord("True", "true");
      assert CaseVariantOf("True", "true");
    } else {
      LowerIsWord("False", "false");
      assert CaseVariantOf("False", "false");
    }
  }

  /** Booleans are sent as `Yes` and `No`. */
  lemma NormaliseBoolean(b: bool)
    ensures Normalise(Bool(b)) == if b then "Yes" else "No"
  {
    LowerBooleanText(b);
  }

  /** A value spelling `true` in any case is sent as `Yes`, one spelling `false` as `No`, anything else as its text. */
  lemma NormaliseCases(v: Value)
    ensures CaseVariantOf(ToText(v), "true") ==> Normalise(v) == "Yes"
    ensures CaseVariantOf(ToText(v), "false") ==> Normalise(v) == "No"
    ensures !CaseVariantOf(ToText(v), "true") && !CaseVariantOf(ToText(v), "false") ==> Normalise(v) == ToText(v)
  {
    var t := ToText(v);
    LowerIsWord(t, "true");
    LowerIsWord(t, "false");
    assert Lower(t) == "true" <==> CaseVariantOf(t, "true");
    assert Lower(t) == "false" <==> CaseVariantOf(t, "false");
  }

  /** A value is sent as `Yes` exactly when its text is `true` in any case, or is `Yes` itself. */
  lemma NormaliseYes(v: Value)
    ensures Normalise(v) == "Yes" <==> CaseVariantOf(ToText(v), "true") || ToText(v) == "Yes"
  {
    NormaliseCases(v);
    if ToText(v) == "Yes" {
      assert !CaseVariantOf(ToText(v), "false");
    }
  }

  /** A value is sent as `No` exactly when its text is `false` in any case, or is `No` itself. */
  lemma NormaliseNo(v: Value)
    ensures Normalise(v) == "No" <==> CaseVariantOf(ToText(v), "false") || ToText(v) == "No"
  {
    NormaliseCases(v);
    if ToText(v) == "No" {
      assert !CaseVariantOf(ToText(v), "true");
    }
    if CaseVariantOf(ToText(v), "true") {
      assert !CaseVariantOf(ToText(v), "false");
    }
  }

  /** Integers are sent as their decimal text, and the minimum extent size gets a `KB` suffix. */
  lemma FormatInteger(name: string, i: int)
    ensures Format(name, Int(i)) == if name == MinExtentSize then IntToDecimal(i) + "KB" else IntToDecimal(i)
  {
    var t := IntToDecimal(i);
    IntTextHasNoLetters(i);
    assert Lower(ToText(Int(i))) == t;
    assert t != "true" by { assert IsLowerWord("true"); }
    assert t != "false" by { assert IsLowerWord("false"); }
  }

  /** A minimum extent size of 50 is sent as `MINIMUMExtentsize=50KB`. */
  lemma MinExtentSizeOption()
    ensures Piece(("MINIMUMExtentsize", Format("min_extent_size", Int(50)))) == " MINIMUMExtentsize=50KB"
  {
    FormatInteger("min_extent_size", 50);
    assert NatToDecimal(5) == "5";
    assert NatToDecimal(50) == "50";
  }

  // ---------------------------------------------------------------------
  // Validation and dispatch

  /** A replication rule set without `repl_state` stops the run before the lookup, whatever the state. */
  lemma ValidationFailsFirst<R>(p: Params, found: bool, existing: R)
    ensures Reconcile(p, found, existing).Err?
        <==> "repl_state" !in p && ("backup_repl_rule_default" in p || "archive_repl_rule_default" in p
                                    || "space_repl_rule_default" in p)
    ensures "backup_repl_rule_default" in p && "repl_state" !in p ==>
              Reconcile(p, found, existing) == Err(MissingDependency("backup_repl_rule_default", "repl_state"))
  {
    if Reconcile(p, found, existing).Err? {
      var k :| 0 <= k < |RequiredBy| && !Satisfied(p, RequiredBy[k]);
    } else {
      assert Satisfied(p, RequiredBy[0]) && Satisfied(p, RequiredBy[1]) && Satisfied(p, RequiredBy[2]);
    }
  }

  /**
   * A run that passes validation looks the node up first and ends with exactly
   * one mutating call: a deregistration for `absent`/`deregistered` carrying
   * the lookup's flag, and otherwise a registration with the assembled options.
   */
  lemma Dispatch<R>(p: Params, found: bool, existing: R)
    requires Reconcile(p, found, existing).Ok?
    ensures var calls := Reconcile(p, found, existing).value;
      var node := Get(p, "node");
      && 2 <= |calls| && calls[0] == FindOne("node", node)
      && calls[|calls| - 1].IsMutation()
      && (forall k :: 0 <= k < |calls| - 1 ==> !calls[k].IsMutation())
      && (calls[|calls| - 1] == DeregisterNode(node, found) <==> IsRemoval(p))
      && (!IsRemoval(p) ==> calls[|calls| - 1] == RegisterNode(node, OptionString(p, found), found, existing))
  {
  }

  /** The state tokens: `absent` and `deregistered` remove, `present` and `registered` register. */
  lemma StateTokens(p: Params)
    ensures Get(p, "state") in {Some(Str("absent")), Some(Str("deregistered"))} ==> IsRemoval(p)
    ensures Get(p, "state") in {Some(Str("present")), Some(Str("registered")), None} ==> !IsRemoval(p)
  {
  }

  /** The option string does not depend on the `state` parameter. */
  lemma StateIgnoredByOptions(p: Params, found: bool, v: Value)
    ensures OptionString(p["state" := v], found) == OptionString(p - {"state"}, found)
  {
    StateIsNoTableName();
    SegmentsIgnore(p["state" := v], found, OptionsParams, "state");
    assert p["state" := v] - {"state"} == p - {"state"};
  }

  /** Two parameter maps that satisfy the same rules fail validation the same way. */
  lemma {:induction false} FirstMissingAgrees(p: Params, q: Params, rules: seq<(string, string)>)
    requires forall k :: 0 <= k < |rules| ==> (Satisfied(p, rules[k]) <==> Satisfied(q, rules[k]))
    ensures FirstMissing(p, rules) == FirstMissing(q, rules)
  {
    if rules != [] {
      var rest := rules[1..];
      assert forall k :: 0 <= k < |rest| ==> rest[k] == rules[k + 1];
      FirstMissingAgrees(p, q, rest);
    }
  }

  /** Validation does not depend on the `state` parameter. */
  lemma StateIgnoredByValidation(p: Params, v: Value)
    ensures FirstMissing(p["state" := v], RequiredBy) == FirstMissing(p - {"state"}, RequiredBy)
  {
    FirstMissingAgrees(p["state" := v], p - {"state"}, RequiredBy);
  }

  /**
   * `present` and `registered` have the same effect, and so do `absent` and
   * `deregistered`: a whole run, calls and options included, is the same for
   * either spelling.
   */
  lemma StateSynonyms<R>(p: Params, found: bool, existing: R)
    ensures Reconcile(p["state" := Str("present")], found, existing)
         == Reconcile(p["state" := Str("registered")], found, existing)
    ensures Reconcile(p["state" := Str("absent")], found, existing)
         == Reconcile(p["state" := Str("deregistered")], found, existing)
  {
    StateIgnoredByValidation(p, Str("present"));
    StateIgnoredByValidation(p, Str("registered"));
    StateIgnoredByValidation(p, Str("absent"));
    StateIgnoredByValidation(p, Str("deregistered"));
    StateIgnoredByOptions(p, found, Str("present"));
    StateIgnoredByOptions(p, found, Str("registered"));
  }

  /** The password warning is issued, before the registration, exactly when a truthy password is given on a register run. */
  lemma PasswordWarningIff<R>(p: Params, found: bool, existing: R)
    requires Reconcile(p, found, existing).Ok?
    ensures var calls := Reconcile(p, found, existing).value;
      (Warn(PasswordWarning) in calls <==> !IsRemoval(p) && WarnsAboutPassword(p))
      && (Warn(PasswordWarning) in calls ==> calls[|calls| - 2] == Warn(PasswordWarning))
  {
  }

  // ---------------------------------------------------------------------
  // Worked scenarios

  /** Nothing is sent when no table parameter is emitted. */
  lemma {:induction false} SegmentsNoneSent(p: Params, found: bool, table: seq<(string, string)>)
    requires forall i :: 0 <= i < |table| ==> !Emits(p, found, table[i].0)
    ensures Segments(p, found, table) == []
  {
    if table != [] {
      var front := table[..|table| - 1];
      assert forall i :: 0 <= i < |front| ==> front[i] == table[i];
      SegmentsNoneSent(p, found, front);
    }
  }

  lemma FirstRegistrationSendsOnlyExpiry(p: Params)
    requires p == map["node" := Str("node1"), "state" := Str("present"),
                      "node_password" := Str("P@ssword"), "node_password_expiry" := Int(90)]
    ensures forall i :: 1 <= i < |OptionsParams| ==> !Emits(p, false, OptionsParams[i].0)
  {
    NodeIsNoTableName();
    StateIsNoTableName();
    PasswordIsNoTableName();
    ExpiryIsFirstTableName();
  }

  lemma FirstRegistrationSegments(p: Params)
    requires p == map["node" := Str("node1"), "state" := Str("present"),
                      "node_password" := Str("P@ssword"), "node_password_expiry" := Int(90)]
    ensures Segments(p, false, OptionsParams) == [("PASSExp", "90")]
  {
    var rest := OptionsParams[1..];
    FirstRegistrationSendsOnlyExpiry(p);
    assert forall i :: 0 <= i < |rest| ==> rest[i] == OptionsParams[i + 1];
    SegmentsNoneSent(p, false, rest);
    FormatInteger("node_password_expiry", 90);
    assert NatToDecimal(9) == "9";
    assert NatToDecimal(90) == "90";
    SegmentsFirst(p, false, OptionsParams);
  }

  /** The options of a first registration with a password and a password expiry of 90 days. */
  lemma FirstRegistrationOptions(p: Params)
    requires p == map["node" := Str("node1"), "state" := Str("present"),
                      "node_password" := Str("P@ssword"), "node_password_expiry" := Int(90)]
    ensures OptionString(p, false) == "P@ssword PASSExp=90"
  {
    FirstRegistrationSegments(p);
    var segs := [("PASSExp", "90")];
    assert segs[..0] == [];
    assert Join(segs) == " PASSExp=90";
  }

  /** First registration with a password: lookup, password warning, then registration. */
  lemma FirstRegistrationExample<R>(existing: R)
    ensures var p := map["node" := Str("node1"), "state" := Str("present"),
                         "node_password" := Str("P@ssword"), "node_password_expiry" := Int(90)];
      Reconcile(p, false, existing) == Ok([FindOne("node", Some(Str("node1"))), Warn(PasswordWarning),
                                           RegisterNode(Some(Str("node1")), "P@ssword PASSExp=90", false, existing)])
  {
    var p := map["node" := Str("node1"), "state" := Str("present"),
                 "node_password" := Str("P@ssword"), "node_password_expiry" := Int(90)];
    assert forall k :: 0 <= k < |RequiredBy| ==> RequiredBy[k].0 !in p;
    assert FirstMissing(p, RequiredBy) == None;
    assert !IsRemoval(p) && WarnsAboutPassword(p);
    assert Get(p, "node") == Some(Str("node1"));
    FirstRegistrationOptions(p);
    var calls := [FindOne("node", Some(Str("node1")))] + [Warn(PasswordWarning)]
                 + [RegisterNode(Some(Str("node1")), "P@ssword PASSExp=90", false, existing)];
    assert Reconcile(p, false, existing) == Ok(calls);
    assert calls == [FindOne("node", Some(Str("node1"))), Warn(PasswordWarning),
                     RegisterNode(Some(Str("node1")), "P@ssword PASSExp=90", false, existing)];
  }

  lemma SegmentsFirst(p: Params, found: bool, table: seq<(string, string)>)
    requires table != []
    ensures Segments(p, found, table) == Sent(p, found, table[0]) + Segments(p, found, table[1..])
  {
    var first := [table[0]];
    assert table == first + table[1..];
    assert first[..0] == [];
    SegmentsConcat(p, found, first, table[1..]);
  }

  lemma {:induction false} SegmentsConcat(p: Params, found: bool, a: seq<(string, string)>, b: seq<(string, string)>)
    ensures Segments(p, found, a + b) == Segments(p, found, a) + Segments(p, found, b)
  {
    if b == [] {
      assert a + b == a;
    } else {
      var front := b[..|b| - 1];
      assert (a + b)[..|a + b| - 1] == a + front;
      SegmentsConcat(p, found, a, front);
    }
  }

  lemma UpdateNodeTypeSendsNothing(p: Params)
    requires p == map["node" := Str("node1"), "state" := Str("present"), "node_type" := Str("nas")]
    ensures Segments(p, true, OptionsParams) == []
  {
    NodeIsNoTableName();
    StateIsNoTableName();
    assert forall i :: 0 <= i < |OptionsParams| ==> !Emits(p, true, OptionsParams[i].0);
    SegmentsNoneSent(p, true, OptionsParams);
  }

  /** Updating an existing node with only a node type sends no options at all. */
  lemma UpdateNodeTypeExample<R>(existing: R)
    ensures var p := map["node" := Str("node1"), "state" := Str("present"), "node_type" := Str("nas")];
      Reconcile(p, true, existing) == Ok([FindOne("node", Some(Str("node1"))),
                                          RegisterNode(Some(Str("node1")), "", true, existing)])
  {
    var p := map["node" := Str("node1"), "state" := Str("present"), "node_type" := Str("nas")];
    assert forall k :: 0 <= k < |RequiredBy| ==> RequiredBy[k].0 !in p;
    assert FirstMissing(p, RequiredBy) == None;
    assert !IsRemoval(p) && !WarnsAboutPassword(p);
    UpdateNodeTypeSendsNothing(p);
    assert Get(p, "node") == Some(Str("node1"));
    var calls := [FindOne("node", Some(Str("node1")))] + []
                 + [RegisterNode(Some(Str("node1")), "", true, existing)];
    assert Reconcile(p, true, existing) == Ok(calls);
    assert calls == [FindOne("node", Some(Str("node1"))), RegisterNode(Some(Str("node1")), "", true, existing)];
  }

  /**
   * Deregistering an existing node, with every argument default filled in,
   * makes the lookup and one removal call.
   */
  lemma DeregisterExample<R>(existing: R)
    ensures var p := Defaults["node" := Str("node1")]["state" := Str("deregistered")];
      Reconcile(p, true, existing) == Ok([FindOne("node", Some(Str("node1"))), DeregisterNode(Some(Str("node1")), true)])
  {
    var p := Defaults["node" := Str("node1")]["state" := Str("deregistered")];
    assert forall k :: 0 <= k < |RequiredBy| ==> RequiredBy[k].0 !in p by {
      assert "backup_repl_rule_default" !in Defaults && "archive_repl_rule_default" !in Defaults
          && "space_repl_rule_default" !in Defaults;
    }
    assert FirstMissing(p, RequiredBy) == None;
    assert IsRemoval(p);
    assert Get(p, "node") == Some(Str("node1"));
    var calls := [FindOne("node", Some(Str("node1")))] + [DeregisterNode(Some(Str("node1")), true)];
    assert Reconcile(p, true, existing) == Ok(calls);
    assert calls == [FindOne("node", Some(Str("node1"))), DeregisterNode(Some(Str("node1")), true)];
  }
}
