/**
 * The admin session gate of app.py: the one session key `is_admin`, set by
 * a login with both credentials right and cleared by logout.
 */
module Auth {

  /** `ADMIN_USER` and `ADMIN_PASS` at their default values. */
  const AdminUser: string := "Teju@2004"
  const AdminPass: string := "1306"

  predicate Credentials(user: string, pass: string) {
    user == AdminUser && pass == AdminPass
  }

  /** What a request does to the session flag: a login form posted, the login page fetched, or a logout. */
  datatype SessionEvent = LoginPost(user: string, pass: string) | LoginGet | Logout

  predicate SucceedsLogin(e: SessionEvent) {
    e.LoginPost? && Credentials(e.user, e.pass)
  }

  /** The flag after one request, given the flag before it. */
  function Step(isAdmin: bool, e: SessionEvent): (r: bool)
    ensures r <==> SucceedsLogin(e) || (isAdmin && !e.Logout?)
  {
    match e
    case LoginPost(user, pass) => if Credentials(user, pass) then true else isAdmin
    case LoginGet => isAdmin
    case Logout => false
  }

  /** The flag after a run of requests, in order. */
  function After(isAdmin: bool, events: seq<SessionEvent>): (r: bool)
    ensures events != [] && events[|events| - 1].Logout? ==> !r
    ensures events != [] && SucceedsLogin(events[|events| - 1]) ==> r
    ensures (forall j :: 0 <= j < |events| ==> events[j] == LoginGet) ==> r == isAdmin
  {
    if events == [] then isAdmin else Step(After(isAdmin, events[..|events| - 1]), events[|events| - 1])
  }

  predicate NoLogoutFrom(events: seq<SessionEvent>, k: nat) {
    forall j :: k <= j < |events| ==> !events[j].Logout?
  }

  /**
   * The session is an admin's exactly when some login with the right
   * credentials has not been followed by a logout, or it started as one and
   * no logout has happened since.
   */
  lemma {:induction false} AfterIff(isAdmin: bool, events: seq<SessionEvent>)
    ensures After(isAdmin, events) <==>
      (exists i :: 0 <= i < |events| && SucceedsLogin(events[i]) && NoLogoutFrom(events, i + 1)) ||
      (isAdmin && NoLogoutFrom(events, 0))
  {
    if events != [] {
      var n := |events| - 1;
      var prior := events[..n];
      var e := events[n];
      AfterIff(isAdmin, prior);
      if e.Logout? {
        assert !NoLogoutFrom(events, 0);
        forall i | 0 <= i < |events| && SucceedsLogin(events[i]) ensures !NoLogoutFrom(events, i + 1) {
          assert i < n;
        }
      } else if SucceedsLogin(e) {
        assert NoLogoutFrom(events, n + 1);
      } else {
        assert NoLogoutFrom(events, 0) <==> NoLogoutFrom(prior, 0);
        if i :| 0 <= i < |prior| && SucceedsLogin(prior[i]) && NoLogoutFrom(prior, i + 1) {
          assert events[i] == prior[i] && NoLogoutFrom(events, i + 1);
        }
        if i :| 0 <= i < |events| && SucceedsLogin(events[i]) && NoLogoutFrom(events, i + 1) {
          assert i < n && prior[i] == events[i] && NoLogoutFrom(prior, i + 1);
        }
      }
    }
  }

  /** A fresh session that never saw the right credentials is never an admin's. */
  lemma NoAdminWithoutLogin(events: seq<SessionEvent>)
    requires forall i :: 0 <= i < |events| ==> !SucceedsLogin(events[i])
    ensures !After(false, events)
  {
    AfterIff(false, events);
  }

  /** The signed session cookie of one client; only `is_admin` is modelled. */
  class Session {
    var isAdmin: bool

    /** A new client's session is empty, so `session.get('is_admin')` is falsy. */
    constructor ()
      ensures !isAdmin
    {
      isAdmin := false;
    }
  }
}
