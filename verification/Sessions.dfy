/** `SessionControler`: two maps from cookies that stand for one. */
module Sessions {
  import opened Bytes

  datatype Session = Session(login: bytes, time: int)

  type SessionMap = map<bytes, Session>

  /** `getLogin`: empty when there is no session, and also for a session of the user "". */
  function LoginOf(m: SessionMap, cookie: bytes): bytes {
    if cookie in m then m[cookie].login else []
  }

  /** What the erase loop of `cleanSome` leaves. */
  function NotAfter(m: SessionMap, cutoff: int): SessionMap {
    map c | c in m && m[c].time <= cutoff :: m[c]
  }

  /** What its documentation asks for: the sessions older than the cutoff are gone. */
  function NotBefore(m: SessionMap, cutoff: int): SessionMap {
    map c | c in m && m[c].time >= cutoff :: m[c]
  }

  /** The loop compares the wrong way round: it does what is documented only when no session
      was stamped before the cutoff or after it. */
  lemma CleanSomeAsDocumented(m: SessionMap, cutoff: int)
    ensures NotAfter(m, cutoff) == NotBefore(m, cutoff) <==> forall c :: c in m ==> m[c].time == cutoff
  {
    if NotAfter(m, cutoff) == NotBefore(m, cutoff) {
      forall c | c in m ensures m[c].time == cutoff {
        assert c in NotAfter(m, cutoff) <==> c in NotBefore(m, cutoff);
      }
    }
  }

  /** A session refreshed after the cutoff is dropped and one that has expired stays. */
  lemma CleanSomeDropsTheFresh(a: bytes, b: bytes, cutoff: int)
    requires a != b
    ensures var m := map[a := Session([1], cutoff - 1), b := Session([1], cutoff + 1)];
      && a in NotAfter(m, cutoff) && b !in NotAfter(m, cutoff)
      && a !in NotBefore(m, cutoff) && b in NotBefore(m, cutoff)
  {
  }

  class SessionControler {
    var cookieToLogin: map<bytes, bytes>
    var cookieToTime: map<bytes, int>

    constructor ()
      ensures Valid() && Current() == map[]
    {
      cookieToLogin, cookieToTime := map[], map[];
    }

    ghost predicate Valid()
      reads this
    {
      cookieToLogin.Keys == cookieToTime.Keys
    }

    /** The one map the two stand for. */
    ghost function Current(): SessionMap
      requires Valid()
      reads this
    {
      map c | c in cookieToTime :: Session(cookieToLogin[c], cookieToTime[c])
    }

    method IsLogged(cookie: bytes) returns (yes: bool)
      requires Valid()
      ensures yes == (cookie in Current())
    {
      yes := cookie in cookieToTime;
    }

    /** `currCookie` is the random string drawn. */
    method Login(login: bytes, currCookie: bytes, now: int)
      requires Valid()
      modifies this
      ensures Valid() && Current() == old(Current())[currCookie := Session(login, now)]
    {
      cookieToLogin := cookieToLogin[currCookie := login];
      cookieToTime := cookieToTime[currCookie := now];
    }

    method Logout(cookie: bytes) returns (ret: bool)
      requires Valid()
      modifies this
      ensures Valid() && Current() == old(Current()) - {cookie}
      ensures ret == (cookie in old(Current()))
    {
      ret := false;
      if cookie in cookieToTime {
        ret := true;
        cookieToLogin := cookieToLogin - {cookie};
        cookieToTime := cookieToTime - {cookie};
      }
    }

    /** The lookup in the second map cannot miss. */
    method GetLogin(cookie: bytes) returns (login: bytes)
      requires Valid()
      ensures login == LoginOf(Current(), cookie)
    {
      login := [];
      if cookie in cookieToTime {
        login := cookieToLogin[cookie];
      }
    }

    method Refresh(cookie: bytes, now: int)
      requires Valid()
      modifies this
      ensures Valid()
      ensures Current() == if cookie in old(Current()) then old(Current())[cookie := old(Current())[cookie].(time := now)]
                           else old(Current())
    {
      if cookie in cookieToTime {
        cookieToTime := cookieToTime[cookie := now];
      }
    }

    method CleanAll()
      modifies this
      ensures Valid() && Current() == map[]
    {
      cookieToLogin, cookieToTime := map[], map[];
    }

    /** The key of an entry is kept past its erasure, where the code reads it through the
        erased iterator. */
    method CleanSome(ttl: int)
      requires Valid()
      modifies this
      ensures Valid() && Current() == NotAfter(old(Current()), ttl)
    {
      var todo := cookieToTime.Keys;
      ghost var m := Current();
      while todo != {}
        invariant Valid() && todo <= cookieToTime.Keys
        invariant forall c :: c in cookieToTime ==> c in m && m[c] == Session(cookieToLogin[c], cookieToTime[c])
        invariant forall c :: c in m && c !in cookieToTime ==> m[c].time > ttl
        invariant forall c :: c in cookieToTime && c !in todo ==> m[c].time <= ttl
        decreases todo
      {
        var it :| it in todo;
        todo := todo - {it};
        if cookieToTime[it] > ttl {
          cookieToTime := cookieToTime - {it};
          if it in cookieToLogin {
            cookieToLogin := cookieToLogin - {it};
          }
        }
      }
    }
  }
}
