# Node registration reconciler, modelled in Dafny

This project models `main()` of the Ansible module `plugins/modules/register.py`.
The module registers or deregisters a client node on an IBM Storage Protect
server. Given the parsed module parameters, it:

1. checks the `required_by` rule. Each of `backup_repl_rule_default`,
   `archive_repl_rule_default` and `space_repl_rule_default` may only be set
   together with `repl_state`;
2. looks the node up on the server (`find_one`);
3. if `state` is `absent` or `deregistered`, calls `deregister_node(node, exists)`;
4. otherwise warns when a node password is given, assembles the command option
   string and calls `register(node, options, exists, existing)`.

The option string starts with the node password, if one is given. It then
holds one ` TOKEN=value` for each entry of a fixed 35-entry table of parameter
names and server tokens whose parameter is set. The four creation-only
parameters are skipped when the node already exists. Any value whose text
lower-cases to `true` or `false` is sent as `Yes` or `No`, strings such as
`TRUE` included (lines 199-203). The minimum extent size gets a `KB` suffix.
The password warning sits in the register branch (lines 188-192), so a
deregister run never warns.

One quirk is kept as written. The table looks up `auth_method`, but the
argument is declared as `authentication`. So `AUTHentication=` is sent only when
the parameters hold an `auth_method` entry, and the `authentication` argument
never changes the option string.

## Layout

- `values.dfy`, module `Values`: the typed parameter values (`str`, `int`,
  `bool`), Python truthiness, `str()` (including decimal rendering of integers,
  with a round trip) and ASCII `lower()`.
- `register.dfy`, module `Register`: the token table, the creation-only list,
  the `required_by` rules and the argument defaults (`Defaults`), all as constants. It also holds value formatting
  (`Normalise`, `Format`) and the option string as a specification (`Segments`,
  `Join`, `OptionString`). `BuildOptions` is the imperative loop that
  accumulates the string. `Reconcile` specifies one run as the sequence of
  calls it makes on the server client, and `Run` is the imperative version
  proved against it.
- `register_lemmas.dfy`, module `RegisterProperties`: the properties.

Interfaces:

- The parameters are a `map<string, Value>`. A missing key stands for `None`.
- The lookup's reply is an input: `found` is the source's `exists`, and
  `existing` is an opaque value of a type parameter.
- The calls on the server client are outputs: a sequence of `FindOne`, `Warn`,
  `DeregisterNode` and `RegisterNode` values.
- A failed `required_by` check is the error `MissingDependency(dependent, required)`,
  returned before any call is made.

## Model

| member | source | states |
|---|---|---|
| Values.NatToDecimal | plugins/modules/register.py:199 | `str()` of an integer is a non-empty digit string without leading zeros |
| Values.DecimalRoundTrip | plugins/modules/register.py:199 | reading back the decimal text of a number gives the number |
| Values.Lower | plugins/modules/register.py:200-202 | lower-casing keeps the length and lowers each character on its own |
| Values.LowerIsWord | plugins/modules/register.py:200-202 | a text lower-cases to a lower-case word exactly when it spells that word in any mix of cases |
| Values.IntTextHasNoLetters | plugins/modules/register.py:199-203 | the text of an integer is unchanged by lower-casing and is no case variant of any word |
| Register.FirstMissing | plugins/modules/register.py:133-139 | validation passes exactly when every set dependent has its prerequisite set; otherwise it names the first failing (dependent, prerequisite) pair in rule order |
| Register.OptionsStep | plugins/modules/register.py:196-206 | one loop step appends ` TOKEN=value` exactly for a set parameter that is not creation-only on an existing node, and appends nothing otherwise |
| Register.BuildOptions | plugins/modules/register.py:194-206 | the accumulated string is the password prefix followed by the joined options of the table entries that are sent |
| Register.Run | plugins/modules/register.py:139-147 | one run makes exactly the calls `Reconcile` specifies, or stops with the validation error |
| RegisterProperties.SegmentsCount | plugins/modules/register.py:196-206 | there is one option per table entry that is sent |
| RegisterProperties.SegmentAt | plugins/modules/register.py:196-206 | a sent entry's option is its token with its formatted value, in the slot numbered by the sent entries before it |
| RegisterProperties.SlotsIncrease | plugins/modules/register.py:148-184 | options appear in table order: an earlier sent entry takes an earlier slot |
| RegisterProperties.SegmentsFromTable | plugins/modules/register.py:196-206 | every option comes from a table entry that is set and not excluded |
| RegisterProperties.CreationOnlyTokensAreNotOnUpdate | plugins/modules/register.py:158-186 | in both directions: an entry's token is `Type`, `BKREPLRuledefault`, `ARREPLRuledefault` or `SPREPLRuledefault` exactly when its parameter is creation-only |
| RegisterProperties.AuthenticationTokenEntry | plugins/modules/register.py:180 | the only entry with token `AUTHentication` is `auth_method`, and no entry is named `authentication` |
| RegisterProperties.CreationOnlyNeverSentOnUpdate | plugins/modules/register.py:186-198 | on an existing node none of the four creation-only tokens is sent as an option's token, whatever is supplied (a value is appended unescaped, so its text may still contain such a token) |
| RegisterProperties.EverySetParameterSentOnCreate | plugins/modules/register.py:196-206 | on a new node every set table parameter, creation-only ones included, is sent |
| RegisterProperties.UpdateDropsOnlyCreationOnly | plugins/modules/register.py:186-198 | the options of an update equal those of a creation from the same parameters minus the creation-only ones |
| RegisterProperties.AuthenticationSentOnlyForAuthMethod | plugins/modules/register.py:180 | `AUTHentication` is sent if and only if the parameters hold `auth_method` |
| RegisterProperties.AuthenticationArgumentIgnored | plugins/modules/register.py:126 | removing the declared `authentication` argument never changes the option string |
| RegisterProperties.JoinShape | plugins/modules/register.py:206 | the options part is empty exactly when no option is sent, and otherwise starts with a space |
| RegisterProperties.JoinContains | plugins/modules/register.py:206 | each option appears in the string as ` TOKEN=value`, right after the options before it |
| RegisterProperties.OptionStringShape | plugins/modules/register.py:188-194 | the string starts with the password when it is truthy and with nothing otherwise; any further text starts with one space |
| RegisterProperties.SentOptionAppears | plugins/modules/register.py:194-206 | every sent parameter appears after the password as ` TOKEN=value` |
| RegisterProperties.LowerBooleanText | plugins/modules/register.py:199-200 | the text of a boolean lower-cases to `true` or `false` |
| RegisterProperties.NormaliseBoolean | plugins/modules/register.py:199-203 | booleans are sent as `Yes` and `No` |
| RegisterProperties.NormaliseCases | plugins/modules/register.py:199-203 | any spelling of `true` becomes `Yes`, any spelling of `false` becomes `No`, and anything else is sent as its text |
| RegisterProperties.NormaliseYes | plugins/modules/register.py:200-201 | a value is sent as `Yes` if and only if its text spells `true` in some case or is `Yes` |
| RegisterProperties.NormaliseNo | plugins/modules/register.py:202-203 | a value is sent as `No` if and only if its text spells `false` in some case or is `No` |
| RegisterProperties.FormatInteger | plugins/modules/register.py:199-205 | integers are sent as their decimal text, with `KB` appended for the minimum extent size only |
| RegisterProperties.MinExtentSizeOption | plugins/modules/register.py:204-206 | a minimum extent size of 50 is sent as ` MINIMUMExtentsize=50KB` |
| RegisterProperties.ValidationFailsFirst | plugins/modules/register.py:133-143 | a run fails validation, before the lookup and whatever the state, exactly when a replication rule is set without `repl_state` |
| RegisterProperties.Dispatch | plugins/modules/register.py:141-147 | a valid run looks the node up first and ends with exactly one mutating call: deregistration with the lookup flag when removing, else registration with the assembled options |
| RegisterProperties.StateTokens | plugins/modules/register.py:145 | `absent` and `deregistered` remove; `present`, `registered` and a missing state register |
| RegisterProperties.StateIgnoredByOptions | plugins/modules/register.py:194-208 | the option string is the same whatever `state` holds, or with no `state` at all |
| RegisterProperties.FirstMissingAgrees | plugins/modules/register.py:132-139 | two parameter maps that satisfy the same `required_by` rules fail validation with the same error, or both pass |
| RegisterProperties.StateIgnoredByValidation | plugins/modules/register.py:132-139 | the `required_by` check does not depend on `state` |
| RegisterProperties.StateSynonyms | plugins/modules/register.py:59-60 | `present` and `registered` give the same run, calls and options included, and so do `absent` and `deregistered` |
| RegisterProperties.PasswordWarningIff | plugins/modules/register.py:188-192 | the warning is issued, just before registration, exactly on a register run with a truthy password |
| RegisterProperties.FirstRegistrationOptions | plugins/modules/register.py:149 | with no defaulted parameter present, a password with an expiry of 90 gives the options `P@ssword PASSExp=90` |
| RegisterProperties.FirstRegistrationExample | plugins/modules/register.py:188-208 | with no defaulted parameter present, first registration with a password: lookup, warning, then registration with those options |
| RegisterProperties.UpdateNodeTypeExample | plugins/modules/register.py:158 | with no defaulted parameter present, updating an existing node with only a node type sends an empty option string |
| RegisterProperties.DeregisterExample | plugins/modules/register.py:145-146 | with every argument default filled in (`Register.Defaults`, lines 99-130), deregistering an existing node makes the lookup and one removal call carrying the flag |

## Left out

- The `StorageProtectModule` class (plugins/modules/register.py:89) is not part of this model. That covers `find_one`, `register`, `deregister_node`, `warn`, check mode, authentication and transport. The lookup reply is an input, and the other calls are recorded in the output trace. The changed verdict, the server-side comparison and command execution belong to that class.
- Argument-spec enforcement (plugins/modules/register.py:92-131) is Ansible library behaviour: types, `choices`, defaults, aliases, `no_log` and `required=True` on `node`. The parameters are taken as already typed and defaulted; `Register.Defaults` lists the defaults (plugins/modules/register.py:99-130). So `node` is carried as an optional value, exactly as `params.get('node')` returns it.
- The `required_by` check itself runs inside Ansible when the module object is built (plugins/modules/register.py:139). It is modelled by its rule. Ansible's error message lists every missing prerequisite of the failing dependent, but each dependent here has only one, so naming the (dependent, prerequisite) pair says the same.
- Values.Lower: only ASCII letters are lowered. Python's `str.lower()` also lowers non-ASCII letters, but those cannot turn a text into `true` or `false`.
- Register.BuildOptions: the loop takes the table as a parameter, and `Run` always passes `OptionsParams`. The table is data and does not change what the loop does. Python dictionaries iterate in insertion order, which is the table order used here.
- The DOCUMENTATION, EXAMPLES and metadata strings (plugins/modules/register.py:19-87) carry no behaviour.
- RegisterProperties.FirstRegistrationOptions: the parameters hold only the node, state, password and expiry, without the argument defaults of plugins/modules/register.py:99-130. With the defaults filled in, the string also carries the options of the defaulted table parameters after `PASSExp=90`. That longer string is not computed here: evaluating all 35 table entries on concrete values is too costly for the verifier.
- RegisterProperties.FirstRegistrationExample: the same parameters as FirstRegistrationOptions, without the argument defaults, for the same reason.
- RegisterProperties.UpdateNodeTypeExample: the parameters hold only the node, state and node type, without the argument defaults. With the defaults, an update still sends the defaulted parameters that are not creation-only; RegisterProperties.UpdateDropsOnlyCreationOnly states that for every input.
