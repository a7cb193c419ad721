/** `SessionManager`: which browser profiles are in use by a posting
    worker. */
module Sessions {
  import opened Common

  class SessionManager {
    /** `active_sessions`: profile id to busy flag. */
    var activeSessions: map<string, bool>

    constructor ()
      ensures activeSessions == map[]
    {
      activeSessions := map[];
    }

    /** `is_session_active(ads_id)`: the stored flag, False for an id never
        seen. */
    function IsSessionActive(adsId: string): (active: bool)
      reads this
      ensures active ==> adsId in activeSessions
      ensures adsId in activeSessions ==> active == activeSessions[adsId]
    {
      if adsId in activeSessions then activeSessions[adsId] else false
    }

    /** `start_session(ads_id)`. `obtained` is what `get_driver(ads_id)`
        would return (None for a failed start or an exception); it is only
        consulted for an inactive, non-empty id. The profile is marked busy
        exactly when a driver is handed out. */
    method StartSession<D>(adsId: string, obtained: Option<D>) returns (driver: Option<D>)
      modifies this
      ensures driver.Some? <==> !old(IsSessionActive(adsId)) && adsId != "" && obtained.Some?
      ensures driver.Some? ==> driver == obtained && activeSessions == old(activeSessions)[adsId := true]
      ensures driver.None? ==> activeSessions == old(activeSessions)
    {
      if !IsSessionActive(adsId) {
        if adsId == "" {
          return None;
        }
        if obtained.Some? {
          activeSessions := activeSessions[adsId := true];
          return obtained;
        }
      }
      return None;
    }

    /** `end_session(ads_id)`: the flag is cleared whatever it was. */
    method EndSession(adsId: string)
      modifies this
      ensures activeSessions == old(activeSessions)[adsId := false]
      ensures !IsSessionActive(adsId)
    {
      activeSessions := activeSessions[adsId := false];
    }
  }

  /** Ending a session twice leaves the same state as ending it once, and
      ending one profile's session does not touch another's flag. */
  lemma EndSessionIdempotent(m: map<string, bool>, adsId: string, other: string)
    ensures m[adsId := false][adsId := false] == m[adsId := false]
    ensures other != adsId ==> (other in m[adsId := false] <==> other in m)
    ensures other != adsId && other in m ==> m[adsId := false][other] == m[other]
  {
  }
}
