/** The session bookkeeping of a posting worker
    (`try_posting_to_reddit_selenium`): it takes the account's close policy,
    starts a session on the job's browser profile and, in its `finally`
    block, releases it again. Logging in and posting are not modelled. */
module Worker {
  import opened Common
  import opened Accounts
  import opened Sessions
  import opened Dispatch

  /** How the `finally` block ended. */
  datatype Teardown =
    | Closed(browserClosed: bool)  // close policy: `close_driver` when a driver was obtained, then `end_session`
    | Quit                         // keep policy: `driver.quit()`, then `end_session`
    | CrashedOnQuit                // keep policy without a driver: `None.quit()` raises before `end_session`
    | RaisedInTeardown             // a driver was obtained and `close_driver` or `driver.quit()` raised before `end_session`

  /** One posting attempt for `job`. `obtained` is what `get_driver` would
      return for the profile; `teardownRaises` says whether closing that
      driver (`close_driver` under the close policy, `driver.quit()` under
      the keep policy) raises. */
  method PostingAttempt<D>(sm: SessionManager, accounts: seq<AdsAccount>, job: Job, obtained: Option<D>,
                           teardownRaises: bool)
    returns (t: Teardown)
    modifies sm
    ensures var started := !old(sm.IsSessionActive(job.adsId)) && job.adsId != "" && obtained.Some?;
            && (started && teardownRaises ==>
                  t == RaisedInTeardown && sm.activeSessions == old(sm.activeSessions)[job.adsId := true])
            && (!(started && teardownRaises) ==>
                  && (CloseBrowser(accounts, job.accountName) ==> t == Closed(started))
                  && (!CloseBrowser(accounts, job.accountName) ==> t == if started then Quit else CrashedOnQuit)
                  && (t == CrashedOnQuit ==> sm.activeSessions == old(sm.activeSessions))
                  && (t != CrashedOnQuit ==> sm.activeSessions == old(sm.activeSessions)[job.adsId := false]))
    // A session this attempt started is released unless closing its driver
    // raises; then the profile stays busy for good. Otherwise the profile is
    // left busy only under the keep policy, and only when it was busy
    // already. Under the close policy the flag is cleared even when another
    // worker's session set it.
    ensures sm.IsSessionActive(job.adsId) <==>
            || (!old(sm.IsSessionActive(job.adsId)) && job.adsId != "" && obtained.Some? && teardownRaises)
            || (!CloseBrowser(accounts, job.accountName) && old(sm.IsSessionActive(job.adsId)))
  {
    var closeBrowser := CloseBrowser(accounts, job.accountName);
    var driver := sm.StartSession(job.adsId, obtained);
    if driver.Some? && teardownRaises {
      t := RaisedInTeardown;
    } else if closeBrowser {
      sm.EndSession(job.adsId);
      t := Closed(driver.Some?);
    } else if driver.Some? {
      sm.EndSession(job.adsId);
      t := Quit;
    } else {
      t := CrashedOnQuit;
    }
  }
}
