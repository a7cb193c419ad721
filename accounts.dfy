/** The browser-profile accounts read from the accounts settings file, the
    lookup of an account's profile, and its close policy. */
module Accounts {
  import opened Common
  import opened Records

  /** One entry built by `load_ads_accounts_config`: the section name, the
      optional `profile_serial_number`, `username` and `password` options,
      and the `close` option (False when absent). */
  datatype AdsAccount = AdsAccount(
    section: string,
    serial: Option<string>,
    username: Option<string>,
    password: Option<string>,
    close: bool)

  /** `account[0] == account_name`: a section name only equals an Account
      value that is that very string. */
  predicate Names(a: AdsAccount, name: Json) {
    name == JStr(a.section)
  }

  /** The position of the first account whose section is `name`. */
  function FirstMatch(accounts: seq<AdsAccount>, name: Json): (k: Option<nat>)
    ensures k.Some? ==> k.value < |accounts| && Names(accounts[k.value], name)
    ensures k.Some? ==> forall j :: 0 <= j < k.value ==> !Names(accounts[j], name)
    ensures k.None? ==> forall j :: 0 <= j < |accounts| ==> !Names(accounts[j], name)
  {
    if accounts == [] then None
    else if Names(accounts[0], name) then Some(0)
    else match FirstMatch(accounts[1..], name)
      case None => None
      case Some(k) => Some(k + 1)
  }

  /** Account `k` is the first one named `name`. */
  predicate IsFirstMatch(accounts: seq<AdsAccount>, name: Json, k: int) {
    0 <= k < |accounts| && Names(accounts[k], name) && forall j :: 0 <= j < k ==> !Names(accounts[j], name)
  }

  /** Python's `str()` of an optional string. */
  function Str(v: Option<string>): (text: string) {
    match v
    case None => "None"
    case Some(s) => s
  }

  /** `get_ads_account_data(account_name)` as written: the first match's
      serial and password passed through `str()`, or `(None, None)`. */
  function AdsAccountDataAsWritten(accounts: seq<AdsAccount>, name: Json): (data: (Option<string>, Option<string>))
    ensures (forall j :: 0 <= j < |accounts| ==> !Names(accounts[j], name)) ==> data == (None, None)
    ensures forall k :: IsFirstMatch(accounts, name, k) ==>
              data == (Some(Str(accounts[k].serial)), Some(Str(accounts[k].password)))
  {
    match FirstMatch(accounts, name)
    case None => (None, None)
    case Some(k) => (Some(Str(accounts[k].serial)), Some(Str(accounts[k].password)))
  }

  /** A configured account without a `profile_serial_number` gets the
      profile id "None" from the lookup as written, which is truthy, so the
      dispatcher's missing-profile test lets it through. */
  lemma MissingSerialNotCaught(accounts: seq<AdsAccount>, name: Json, k: nat)
    requires FirstMatch(accounts, name) == Some(k) && accounts[k].serial.None?
    ensures AdsAccountDataAsWritten(accounts, name).0 == Some("None")
    ensures HasText(AdsAccountDataAsWritten(accounts, name).0)
  {
  }

  /** The lookup as evidently intended: the first match's serial and
      password as configured, None for an option that is absent. */
  function AdsAccountData(accounts: seq<AdsAccount>, name: Json): (data: (Option<string>, Option<string>))
    ensures (forall j :: 0 <= j < |accounts| ==> !Names(accounts[j], name)) ==> data == (None, None)
    ensures forall k :: IsFirstMatch(accounts, name, k) ==> data == (accounts[k].serial, accounts[k].password)
  {
    match FirstMatch(accounts, name)
    case None => (None, None)
    case Some(k) => (accounts[k].serial, accounts[k].password)
  }

  /** With the corrected lookup, a profile id is found exactly when the first
      account with that section name has a non-empty serial, and it is that
      serial. */
  lemma {:induction false} AdsAccountDataFound(accounts: seq<AdsAccount>, name: Json)
    ensures HasText(AdsAccountData(accounts, name).0)
            <==> exists k :: FirstMatch(accounts, name) == Some(k) && HasText(accounts[k].serial)
    ensures FirstMatch(accounts, name).Some? ==>
            AdsAccountData(accounts, name).0 == accounts[FirstMatch(accounts, name).value].serial
  {
    match FirstMatch(accounts, name)
    case None =>
    case Some(k) =>
      assert FirstMatch(accounts, name) == Some(k) && AdsAccountData(accounts, name).0 == accounts[k].serial;
  }

  /** Both lookups agree whenever the account has its serial and password
      configured. */
  lemma AsWrittenAgrees(accounts: seq<AdsAccount>, name: Json)
    requires FirstMatch(accounts, name).Some?
    requires accounts[FirstMatch(accounts, name).value].serial.Some?
    requires accounts[FirstMatch(accounts, name).value].password.Some?
    ensures AdsAccountDataAsWritten(accounts, name) == AdsAccountData(accounts, name)
  {
  }

  // ---------------------------------------------------------------------
  // Close policy

  /** The value `next((account[4] for ...), "True")` yields: the first
      matching account's boolean `close`, or the default string. */
  datatype CloseSetting = Flag(b: bool) | Default(s: string)

  function CloseSettingOf(accounts: seq<AdsAccount>, name: Json): (c: CloseSetting)
    ensures c.Default? <==> FirstMatch(accounts, name).None?
  {
    if accounts == [] then Default("True")
    else if Names(accounts[0], name) then Flag(accounts[0].close)
    else CloseSettingOf(accounts[1..], name)
  }

  /** `str(value)`: booleans print as `True` and `False`. */
  function PyStr(c: CloseSetting): (text: string) {
    match c
    case Flag(b) => if b then "True" else "False"
    case Default(s) => s
  }

  function LowerChar(c: char): char {
    if 'A' <= c <= 'Z' then (c as int + 32) as char else c
  }

  /** `str.lower()` on ASCII letters. */
  function Lower(s: string): (r: string)
    ensures |r| == |s| && forall i :: 0 <= i < |s| ==> r[i] == LowerChar(s[i])
  {
    seq(|s|, i requires 0 <= i < |s| => LowerChar(s[i]))
  }

  /** The two spellings `str()` gives a boolean, lowered. */
  lemma LowerOfBool(t: string, f: string)
    requires t == "True" && f == "False"
    ensures Lower(t) == "true" && Lower(f) != "true"
  {
    var lt := Lower(t);
    assert lt[0] == 't' && lt[1] == 'r' && lt[2] == 'u' && lt[3] == 'e';
    assert |Lower(f)| == 5;
  }

  /** `str(account_close_config).lower() == "true"`. */
  predicate CloseBrowser(accounts: seq<AdsAccount>, name: Json) {
    Lower(PyStr(CloseSettingOf(accounts, name))) == "true"
  }

  /** The first matching account's own setting, skipped accounts named
      differently, decides the policy. */
  lemma {:induction false} CloseSettingFirst(accounts: seq<AdsAccount>, name: Json)
    ensures FirstMatch(accounts, name).Some? ==>
            CloseSettingOf(accounts, name) == Flag(accounts[FirstMatch(accounts, name).value].close)
  {
    if accounts != [] && !Names(accounts[0], name) {
      CloseSettingFirst(accounts[1..], name);
    }
  }

  /** The browser is closed after a post exactly when the account's `close`
      option is true, or when no account has that name. */
  lemma CloseBrowserIff(accounts: seq<AdsAccount>, name: Json)
    ensures CloseBrowser(accounts, name) <==>
            match FirstMatch(accounts, name)
            case None => true
            case Some(k) => accounts[k].close
  {
    CloseSettingFirst(accounts, name);
    LowerOfBool("True", "False");
  }
}
