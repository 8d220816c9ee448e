/**
 * The node-registration reconciler of the `register` Ansible module: it
 * checks the replication-rule dependencies, looks the node up, and then
 * either deregisters it or registers/updates it with an option string
 * assembled from a fixed table of parameter names and server tokens.
 *
 * The server client is not modelled. Its lookup reply (`found`, the source's `exists`, and the
 * opaque `existing` record) is an input. The calls made on it (lookup,
 * warning, register, deregister) are recorded as a trace of Call values.
 */
module Register {
  import opened Values

  /** The parsed module parameters; a missing key stands for `None`. */
  type Params = map<string, Value>

  /** Parameter name to server token, in the order the options are emitted. */
  const OptionsParams: seq<(string, string)> := [
    ("node_password_expiry", "PASSExp"),
    ("user_id", "USerid"),
    ("contact", "CONtact"),
    ("policy_domain", "DOmain"),
    ("compression", "COMPression"),
    ("can_archive_delete", "ARCHDELete"),
    ("can_backup_delete", "BACKDELete"),
    ("option_set", "CLOptset"),
    ("force_password_reset", "FORCEPwreset"),
    ("node_type", "Type"),
    ("url", "URL"),
    ("utility_url", "UTILITYUrl"),
    ("max_mount_points", "MAXNUMMP"),
    ("auto_rename_file_spaces", "AUTOFSRename"),
    ("keep_mount_points", "KEEPMP"),
    ("max_transaction_group", "TXNGroupmax"),
    ("data_write_path", "DATAWritepath"),
    ("data_read_path", "DATAReadpath"),
    ("target_level", "TARGETLevel"),
    ("session_initiation", "SESSIONINITiation"),
    ("session_ip", "HLAddress"),
    ("session_port", "LLAddress"),
    ("email", "EMAILADdress"),
    ("deduplication", "DEDUPlication"),
    ("backup_initiation", "BACKUPINITiation"),
    ("repl_state", "REPLState"),
    ("backup_repl_rule_default", "BKREPLRuledefault"),
    ("archive_repl_rule_default", "ARREPLRuledefault"),
    ("space_repl_rule_default", "SPREPLRuledefault"),
    ("recover_damaged", "RECOVERDamaged"),
    ("role_override", "ROLEOVERRIDE"),
    // The argument is declared as `authentication`, but the table looks up `auth_method`.
    ("auth_method", "AUTHentication"),
    ("session_security", "SESSIONSECurity"),
    ("split_large_objects", "SPLITLARGEObjects"),
    ("min_extent_size", "MINIMUMExtentsize")
  ]

  /** Parameters that can only be set when the node is first registered. */
  const NotOnUpdate: seq<string> :=
    ["node_type", "backup_repl_rule_default", "archive_repl_rule_default", "space_repl_rule_default"]

  /** (dependent, prerequisite): the dependent may only be set when the prerequisite is. */
  const RequiredBy: seq<(string, string)> := [
    ("backup_repl_rule_default", "repl_state"),
    ("archive_repl_rule_default", "repl_state"),
    ("space_repl_rule_default", "repl_state")
  ]

  /**
   * The defaults of the argument specification: Ansible fills these in for
   * every parameter the play leaves unset, so a run always sees them.
   */
  const Defaults: Params := map[
    "compression" := Str("client"),
    "node_type" := Str("client"),
    "auto_rename_file_spaces" := Str("false"),
    "data_write_path" := Str("any"),
    "data_read_path" := Str("any"),
    "session_initiation" := Str("clientorserver"),
    "deduplication" := Str("clientorserver"),
    "backup_initiation" := Str("all"),
    "role_override" := Str("usereported"),
    "authentication" := Str("local"),
    "session_security" := Str("transitional"),
    "min_extent_size" := Int(50),
    "state" := Str("present")
  ]

  const MinExtentSize: string := "min_extent_size"

  const PasswordWarning: string :=
    "The node_password field has encrypted data and may inaccurately report task is changed."

  datatype ValidationError = MissingDependency(dependent: string, required: string)

  datatype Result<T> = Ok(value: T) | Err(error: ValidationError)

  /** A call made on the server client, in the order it is made. */
  datatype Call<R> =
    | FindOne(kind: string, name: Option<Value>)
    | Warn(message: string)
    | DeregisterNode(node: Option<Value>, found: bool)
    | RegisterNode(node: Option<Value>, options: string, found: bool, existing: R)
  {
    predicate IsMutation() { DeregisterNode? || RegisterNode? }
  }

  /** `params.get(key)` */
  function Get(p: Params, key: string): Option<Value>
  {
    if key in p then Some(p[key]) else None
  }

  // ---------------------------------------------------------------------
  // Validation of the `required_by` rules

  predicate Satisfied(p: Params, rule: (string, string))
  {
    rule.0 in p ==> rule.1 in p
  }

  /** The first rule, in table order, whose dependent is set while its prerequisite is not. */
  function FirstMissing(p: Params, rules: seq<(string, string)>): (r: Option<ValidationError>)
    ensures r.None? <==> forall k :: 0 <= k < |rules| ==> Satisfied(p, rules[k])
    ensures r.Some? ==> exists k :: 0 <= k < |rules| && !Satisfied(p, rules[k])
                                   && r.value == MissingDependency(rules[k].0, rules[k].1)
                                   && forall j :: 0 <= j < k ==> Satisfied(p, rules[j])
  {
    if rules == [] then None
    else if !Satisfied(p, rules[0]) then Some(MissingDependency(rules[0].0, rules[0].1))
    else
      var r := FirstMissing(p, rules[1..]);
      if r.Some? then
        ghost var k :| 0 <= k < |rules[1..]| && !Satisfied(p, rules[1..][k])
          && r.value == MissingDependency(rules[1..][k].0, rules[1..][k].1)
          && forall j :: 0 <= j < k ==> Satisfied(p, rules[1..][j]);
        assert rules[1..][k] == rules[k + 1];
        assert forall j :: 0 <= j < k + 1 ==> Satisfied(p, rules[j]) by {
          forall j | 0 <= j < k + 1 ensures Satisfied(p, rules[j]) {
            if j > 0 { assert rules[j] == rules[1..][j - 1]; }
          }
        }
        r
      else
        assert forall k :: 0 <= k < |rules| ==> Satisfied(p, rules[k]) by {
          forall k | 0 <= k < |rules| ensures Satisfied(p, rules[k]) {
            if k > 0 { assert rules[k] == rules[1..][k - 1]; }
          }
        }
        r
  }

  // ---------------------------------------------------------------------
  // Value formatting and the option string

  /** Any value whose text lower-cases to `true`/`false` is sent as `Yes`/`No`. */
  function Normalise(v: Value): string
  {
    var text := ToText(v);
    if Lower(text) == "true" then "Yes"
    else if Lower(text) == "false" then "No"
    else text
  }

  /** The value sent for parameter `name`; the minimum extent size is given in kilobytes. */
  function Format(name: string, v: Value): string
  {
    if name == MinExtentSize then Normalise(v) + "KB" else Normalise(v)
  }

  /** A table parameter is sent when it is set, unless it is creation-only and the node exists. */
  predicate Emits(p: Params, found: bool, name: string)
  {
    name in p && !(found && name in NotOnUpdate)
  }

  /** The (token, value) pairs sent for the entries of `table`, in table order. */
  function Segments(p: Params, found: bool, table: seq<(string, string)>): seq<(string, string)>
  {
    if table == [] then []
    else Segments(p, found, table[..|table| - 1]) + Sent(p, found, table[|table| - 1])
  }

  /** What one table entry contributes: its token and formatted value, if it is sent. */
  function Sent(p: Params, found: bool, entry: (string, string)): seq<(string, string)>
  {
    var (name, token) := entry;
    if Emits(p, found, name) then [(token, Format(name, p[name]))] else []
  }

  /** One option as it appears in the command: ` TOKEN=value`. */
  function Piece(segment: (string, string)): string
  {
    " " + segment.0 + "=" + segment.1
  }

  function Join(segments: seq<(string, string)>): string
  {
    if segments == [] then ""
    else Join(segments[..|segments| - 1]) + Piece(segments[|segments| - 1])
  }

  /** The option string opens with the node password when it is truthy. */
  function PasswordPrefix(p: Params): string
  {
    if "node_password" in p && Truthy(p["node_password"]) then ToText(p["node_password"]) else ""
  }

  function OptionString(p: Params, found: bool): string
  {
    PasswordPrefix(p) + Join(Segments(p, found, OptionsParams))
  }

  /** Taking one more table entry appends its own option when it is sent, and nothing otherwise. */
  lemma OptionsStep(p: Params, found: bool, table: seq<(string, string)>, i: nat, before: string)
    requires i < |table|
    requires before == PasswordPrefix(p) + Join(Segments(p, found, table[..i]))
    ensures Emits(p, found, table[i].0) ==>
              before + (" " + table[i].1 + "=" + Format(table[i].0, p[table[i].0]))
              == PasswordPrefix(p) + Join(Segments(p, found, table[..i + 1]))
    ensures !Emits(p, found, table[i].0) ==>
              before == PasswordPrefix(p) + Join(Segments(p, found, table[..i + 1]))
  {
    var done := Segments(p, found, table[..i]);
    assert table[..i + 1][..i] == table[..i];
    var sent := Sent(p, found, table[i]);
    assert Segments(p, found, table[..i + 1]) == done + sent;
    if sent != [] {
      var x := sent[0];
      assert sent == [x];
      assert (done + [x])[..|done|] == done;
      assert Join(done + [x]) == Join(done) + Piece(x);
      AppendAssoc(PasswordPrefix(p), Join(done), Piece(x));
    } else {
      assert done + sent == done;
    }
  }

  /** No entry taken yields the password alone; all entries taken yield the whole option string. */
  lemma OptionsEnds(p: Params, found: bool, table: seq<(string, string)>)
    ensures PasswordPrefix(p) + Join(Segments(p, found, table[..0])) == PasswordPrefix(p)
    ensures PasswordPrefix(p) + Join(Segments(p, found, table[..|table|]))
         == PasswordPrefix(p) + Join(Segments(p, found, table))
  {
    assert table[..0] == [];
    assert table[..|table|] == table;
    assert PasswordPrefix(p) + "" == PasswordPrefix(p);
  }

  /** Regrouping a concatenation; proved on its own, out of the larger context of OptionsStep. */
  lemma AppendAssoc(a: string, b: string, c: string)
    ensures (a + b) + c == a + (b + c)
  {
  }

  /**
   * Assembles the option string: the password when it is truthy, then one
   * ` TOKEN=value` per entry of `table` that is sent. The module always
   * passes OptionsParams as the table.
   */
  method BuildOptions(p: Params, found: bool, table: seq<(string, string)>) returns (options: string)
    ensures options == PasswordPrefix(p) + Join(Segments(p, found, table))
  {
    var password := Get(p, "node_password");
    options := if password.Some? && Truthy(password.value) then ToText(password.value) else "";
    OptionsEnds(p, found, table);
    var i := 0;
    while i < |table|
      invariant 0 <= i <= |table|
      invariant options == PasswordPrefix(p) + Join(Segments(p, found, table[..i]))
    {
      var opt, token := table[i].0, table[i].1;
      OptionsStep(p, found, table, i, options);
      if opt in p && !(found && opt in NotOnUpdate) {
        var value := Format(opt, p[opt]);
        options := options + (" " + token + "=" + value);
      }
      i := i + 1;
    }
  }

  // ---------------------------------------------------------------------
  // State dispatch

  /** `absent` and `deregistered` remove the node; every other state registers it. */
  predicate IsRemoval(p: Params)
  {
    Get(p, "state") == Some(Str("absent")) || Get(p, "state") == Some(Str("deregistered"))
  }

  predicate WarnsAboutPassword(p: Params)
  {
    "node_password" in p && Truthy(p["node_password"])
  }

  /** The calls one run of the module makes, or the validation error that stops it first. */
  function Reconcile<R>(p: Params, found: bool, existing: R): Result<seq<Call<R>>>
  {
    match FirstMissing(p, RequiredBy)
    case Some(e) => Err(e)
    case None =>
      var node := Get(p, "node");
      var lookup := [FindOne("node", node)];
      if IsRemoval(p) then Ok(lookup + [DeregisterNode(node, found)])
      else
        var warnings := if WarnsAboutPassword(p) then [Warn(PasswordWarning)] else [];
        Ok(lookup + warnings + [RegisterNode(node, OptionString(p, found), found, existing)])
  }

  /**
   * One run of the module: validate, look the node up (its reply is `found`
   * and `existing`), then deregister or register.
   */
  method Run<R>(p: Params, found: bool, existing: R) returns (r: Result<seq<Call<R>>>)
    ensures r == Reconcile(p, found, existing)
  {
    var missing := FirstMissing(p, RequiredBy);
    if missing.Some? {
      return Err(missing.value);
    }
    var node := Get(p, "node");
    var calls := [FindOne("node", node)];
    if IsRemoval(p) {
      calls := calls + [DeregisterNode(node, found)];
    } else {
      var password := Get(p, "node_password");
      if password.Some? && Truthy(password.value) {
        calls := calls + [Warn(PasswordWarning)];
      }
      var options := BuildOptions(p, found, OptionsParams);
      calls := calls + [RegisterNode(node, options, found, existing)];
      assert calls == [FindOne("node", node)]
        + (if WarnsAboutPassword(p) then [Warn(PasswordWarning)] else [])
        + [RegisterNode(node, options, found, existing)];
    }
    return Ok(calls);
  }
}
