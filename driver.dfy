/** The two pure steps of `get_driver`: splitting the proxy string
    `user:password@host:port` into the fields sent to the profile update, and
    validating the browser-start response before a Chrome driver is
    attached to it. */
module Driver {
  import opened Common
  import opened Records

  // ---------------------------------------------------------------------
  // Proxy string

  datatype ProxySettings = ProxySettings(host: string, port: string, user: string, password: string)

  /** The four fields of the proxy configuration, each raising IndexError
      when its piece is missing; any such error leaves `get_driver` without a
      driver, so the model returns None. */
  function SplitProxy(s: string): Option<ProxySettings>
  {
    var at := Split(s, '@');
    if |at| < 2 then None
    else
      var hostPort := Split(at[1], ':');
      var userPass := Split(at[0], ':');
      if |hostPort| < 2 || |userPass| < 2 then None
      else Some(ProxySettings(hostPort[0], hostPort[1], userPass[0], userPass[1]))
  }

  /** A field free of both separators. */
  predicate Plain(t: string) {
    '@' !in t && ':' !in t
  }

  predicate AllPlain(ps: ProxySettings) {
    Plain(ps.host) && Plain(ps.port) && Plain(ps.user) && Plain(ps.password)
  }

  /** `s` is `user:password` and `host:port` around the first `@`, where
      after the password come only further `:` fields (`x`), and after the
      port further `:` fields (`y`) and then anything from a second `@` on
      (`z`). */
  predicate Layout(s: string, ps: ProxySettings, x: string, y: string, z: string) {
    && s == (ps.user + ":" + ps.password + x) + "@" + (ps.host + ":" + ps.port + y) + z
    && '@' !in x && (x == [] || x[0] == ':')
    && '@' !in y && (y == [] || y[0] == ':')
    && (z == [] || z[0] == '@')
  }

  /** The user and password are the first two `:` fields before the first
      `@`, the host and port the first two `:` fields of the text between it
      and the next `@`. */
  lemma SplitProxyOf(s: string, ps: ProxySettings, x: string, y: string, z: string)
    requires AllPlain(ps) && Layout(s, ps, x, y, z)
    ensures SplitProxy(s) == Some(ps)
  {
    var a := ps.user + ":" + ps.password + x;
    var b := ps.host + ":" + ps.port + y;
    assert s == a + ['@'] + b + z;
    TwoFields(a, '@', b, z);
    assert a == ps.user + [':'] + ps.password + x;
    TwoFields(ps.user, ':', ps.password, x);
    assert b == ps.host + [':'] + ps.port + y;
    TwoFields(ps.host, ':', ps.port, y);
  }

  /** The first two pieces of a split. */
  lemma TwoFields(f1: string, sep: char, f2: string, rest: string)
    requires sep !in f1 && sep !in f2 && (rest == [] || rest[0] == sep)
    ensures var p := Split(f1 + [sep] + f2 + rest, sep); |p| >= 2 && p[0] == f1 && p[1] == f2
  {
    assert f1 + [sep] + f2 + rest == f1 + [sep] + (f2 + rest);
    SplitCons(f1, sep, f2 + rest);
    SplitHeadOf(f2, sep, rest);
  }

  /** Conversely every split that succeeds comes from such a layout, with
      fields free of both separators. */
  lemma SplitProxyLayout(s: string)
    requires SplitProxy(s).Some?
    ensures var ps := SplitProxy(s).value;
            && AllPlain(ps)
            && Layout(s, ps, JoinRest(Split(Split(s, '@')[0], ':'), ':'),
                                    JoinRest(Split(Split(s, '@')[1], ':'), ':'),
                                    JoinRest(Split(s, '@'), '@'))
  {
    var at := Split(s, '@');
    var hostPort, userPass := Split(at[1], ':'), Split(at[0], ':');
    var ps := ProxySettings(hostPort[0], hostPort[1], userPass[0], userPass[1]);
    assert SplitProxy(s) == Some(ps);
    SplitFirstTwo(s, '@');
    ColonPieces(at[0]);
    ColonPieces(at[1]);
    assert at[0] == ps.user + ":" + ps.password + JoinRest(userPass, ':');
    assert at[1] == ps.host + ":" + ps.port + JoinRest(hostPort, ':');
  }

  /** A `@`-free piece with a `:` is its first two `:` fields and the rest,
      none of them holding a `@`. */
  lemma ColonPieces(p: string)
    requires '@' !in p && |Split(p, ':')| >= 2
    ensures var q := Split(p, ':');
            && p == q[0] + ":" + q[1] + JoinRest(q, ':')
            && Plain(q[0]) && Plain(q[1]) && '@' !in JoinRest(q, ':')
  {
    SplitFirstTwo(p, ':');
  }

  /** The whole characterisation: the split succeeds with `ps` exactly when
      `s` has that layout. */
  lemma SplitProxyIff(s: string, ps: ProxySettings)
    ensures SplitProxy(s) == Some(ps) <==> AllPlain(ps) && exists x, y, z :: Layout(s, ps, x, y, z)
  {
    if SplitProxy(s) == Some(ps) {
      SplitProxyLayout(s);
    }
    if AllPlain(ps) && exists x, y, z :: Layout(s, ps, x, y, z) {
      var x, y, z :| Layout(s, ps, x, y, z);
      SplitProxyOf(s, ps, x, y, z);
    }
  }

  /** `user:password@host:port`. */
  function FormatProxy(ps: ProxySettings): string {
    ps.user + ":" + ps.password + "@" + ps.host + ":" + ps.port
  }

  /** Formatting fields free of `@` and `:` and splitting again gives them
      back. */
  lemma ProxyRoundTrip(ps: ProxySettings)
    requires AllPlain(ps)
    ensures SplitProxy(FormatProxy(ps)) == Some(ps)
  {
    var e: string := [];
    assert FormatProxy(ps) == ps.user + ":" + ps.password + e + "@" + ps.host + ":" + ps.port + e + e;
    SplitProxyOf(FormatProxy(ps), ps, e, e, e);
  }

  // ---------------------------------------------------------------------
  // Browser-start response

  /** Why no driver is attached. A missing `code` raises KeyError, a value
      of the wrong type on the way to the address raises TypeError, and a
      debugger address that is not a string is refused by the check or by
      Chrome; `get_driver` yields no driver in each case. */
  datatype Rejection = NoCode | CodeNotZero | BadShape | BadAddress

  /** The Chrome options and service built from an accepted response. */
  datatype ChromeSetup = ChromeSetup(debuggerAddress: string, executable: Json, arguments: seq<string>)

  datatype StartResult = Accepted(setup: ChromeSetup) | Rejected(why: Rejection)

  /** `v[k]` on an object that has `k`. */
  function Member(v: Json, k: string): Option<Json> {
    if v.JObject? && k in v.members then Some(v.members[k]) else None
  }

  /** `v == 0` in Python, where False equals 0. */
  predicate IsZero(v: Json) {
    v == JInt(0) || v == JBool(false)
  }

  /** A usable debugger address: a non-empty string with a `:`. */
  predicate GoodAddress(v: Json) {
    v.JStr? && v.s != "" && ':' in v.s
  }

  const DisableExtensions := "--disable-extensions"

  /** The checks `get_driver` makes of the start response, in order. */
  function ValidateStartResponse(resp: Json): StartResult
  {
    var code := Member(resp, "code");
    if code.None? then Rejected(NoCode)
    else if !IsZero(code.value) then Rejected(CodeNotZero)
    else
      var data := Member(resp, "data");
      if data.None? then Rejected(BadShape)
      else
        var webdriver := Member(data.value, "webdriver");
        var ws := Member(data.value, "ws");
        if webdriver.None? || ws.None? then Rejected(BadShape)
        else
          var address := Member(ws.value, "selenium");
          if address.None? then Rejected(BadShape)
          else if !GoodAddress(address.value) then Rejected(BadAddress)
          else Accepted(ChromeSetup(address.value.s, webdriver.value, [DisableExtensions]))
  }

  /** The `data` object of a response that has `webdriver` and `ws.selenium`. */
  predicate WellShaped(resp: Json) {
    && Member(resp, "data").Some?
    && Member(Member(resp, "data").value, "webdriver").Some?
    && Member(Member(resp, "data").value, "ws").Some?
    && Member(Member(Member(resp, "data").value, "ws").value, "selenium").Some?
  }

  function Address(resp: Json): Json
    requires WellShaped(resp)
  {
    Member(Member(Member(resp, "data").value, "ws").value, "selenium").value
  }

  /** Each rejection reason and the acceptance hold exactly in their case:
      the code is tested first, then the shape, then the address; an
      accepted response attaches to `data.ws.selenium` and runs
      `data.webdriver`. */
  lemma ValidateCases(resp: Json)
    ensures ValidateStartResponse(resp) == Rejected(NoCode) <==> Member(resp, "code").None?
    ensures ValidateStartResponse(resp) == Rejected(CodeNotZero) <==>
            Member(resp, "code").Some? && !IsZero(Member(resp, "code").value)
    ensures ValidateStartResponse(resp) == Rejected(BadShape) <==>
            Member(resp, "code").Some? && IsZero(Member(resp, "code").value) && !WellShaped(resp)
    ensures ValidateStartResponse(resp) == Rejected(BadAddress) <==>
            Member(resp, "code").Some? && IsZero(Member(resp, "code").value) && WellShaped(resp)
            && !GoodAddress(Address(resp))
    ensures ValidateStartResponse(resp).Accepted? <==>
            Member(resp, "code").Some? && IsZero(Member(resp, "code").value) && WellShaped(resp)
            && GoodAddress(Address(resp))
    ensures ValidateStartResponse(resp).Accepted? ==>
            var setup := ValidateStartResponse(resp).setup;
            && JStr(setup.debuggerAddress) == Address(resp)
            && setup.executable == Member(Member(resp, "data").value, "webdriver").value
            && setup.arguments == [DisableExtensions]
  {
  }

  /** The response the browser service sends for a started profile. */
  function StartResponse(address: string, executable: Json): Json {
    JObject(map["code" := JInt(0),
                "data" := JObject(map["webdriver" := executable,
                                      "ws" := JObject(map["selenium" := JStr(address)])])])
  }

  /** A started profile is attached to exactly when its address is usable,
      and then with that address and executable. */
  lemma StartResponseAccepted(address: string, executable: Json)
    ensures ValidateStartResponse(StartResponse(address, executable)) ==
            if address != "" && ':' in address
            then Accepted(ChromeSetup(address, executable, [DisableExtensions]))
            else Rejected(BadAddress)
  {
    var resp := StartResponse(address, executable);
    var data := JObject(map["webdriver" := executable, "ws" := JObject(map["selenium" := JStr(address)])]);
    assert Member(resp, "code") == Some(JInt(0));
    assert Member(resp, "data") == Some(data);
    assert Member(data, "webdriver") == Some(executable);
    assert Member(data, "ws") == Some(JObject(map["selenium" := JStr(address)]));
  }
}
