/** The two ORM entities: a Session (its token, creation and expiry times, and its owner) and
    a User (id, login, password hash, and the collection of its sessions), with the
    bookkeeping that keeps the two sides of the user–session link together. Times are
    integer seconds. */
module Entities {

  class Session {
    /** Set once, by the constructor; there is no setter. */
    const createdAt: int
    var token: string
    var expiresAt: int
    /** The owner; null stands for the typed property not yet initialised. */
    var user: User?

    /** A new session is created at the current time and has no owner, token or expiry yet. */
    constructor (now: int)
      ensures createdAt == now && user == null && token == "" && expiresAt == now
    {
      createdAt := now;
      token := "";
      expiresAt := now;
      user := null;
    }

    method SetToken(t: string)
      modifies this
      ensures token == t
      ensures expiresAt == old(expiresAt) && user == old(user)
    {
      token := t;
    }

    method SetExpiresAt(at: int)
      modifies this
      ensures expiresAt == at
      ensures token == old(token) && user == old(user)
    {
      expiresAt := at;
    }

    /** setUser accepts null in its signature, but the property it writes is not nullable:
        storing null fails with a TypeError and leaves the owner as it was. */
    method SetUser(u: User?) returns (typeError: bool)
      modifies this
      ensures typeError <==> u == null
      ensures user == if u == null then old(user) else u
      ensures token == old(token) && expiresAt == old(expiresAt)
    {
      if u == null {
        return true;
      }
      user := u;
      typeError := false;
    }
  }

  /** The collection holds each session once. */
  ghost predicate Distinct(ss: seq<Session>) {
    forall i, j :: 0 <= i < j < |ss| ==> ss[i] != ss[j]
  }

  /** removeElement: the collection without the first occurrence of s. */
  function RemoveFirst(ss: seq<Session>, s: Session): (r: seq<Session>)
    ensures s in ss ==> |r| == |ss| - 1
    ensures s !in ss ==> r == ss
  {
    if ss == [] then []
    else if ss[0] == s then ss[1..]
    else [ss[0]] + RemoveFirst(ss[1..], s)
  }

  /** Removing from a collection that holds each session once takes out exactly that
      session and keeps every other one. */
  lemma {:induction false} RemoveFirstExact(ss: seq<Session>, s: Session)
    requires Distinct(ss)
    ensures forall x :: x in RemoveFirst(ss, s) <==> x in ss && x != s
  {
    if ss != [] {
      var tail := ss[1..];
      DistinctTail(ss);
      if ss[0] == s {
        forall x | x in tail ensures x != s {
          var k :| 0 <= k < |tail| && tail[k] == x;
          assert ss[k + 1] == x;
        }
      } else {
        RemoveFirstExact(tail, s);
        assert RemoveFirst(ss, s) == [ss[0]] + RemoveFirst(tail, s);
      }
    }
  }

  /** The result holds each session once too. */
  lemma {:induction false} RemoveFirstDistinct(ss: seq<Session>, s: Session)
    requires Distinct(ss)
    ensures Distinct(RemoveFirst(ss, s))
  {
    if ss != [] && ss[0] != s {
      var tail := ss[1..];
      DistinctTail(ss);
      RemoveFirstDistinct(tail, s);
      RemoveFirstSubset(tail, s);
      var rest := RemoveFirst(tail, s);
      var r := [ss[0]] + rest;
      forall k | 0 <= k < |tail| ensures tail[k] != ss[0] {
        assert tail[k] == ss[k + 1];
      }
      forall i, j | 0 <= i < j < |r| ensures r[i] != r[j] {
        assert r[j] == rest[j - 1] && r[j] in rest;
        if i > 0 {
          assert r[i] == rest[i - 1];
        } else {
          var k :| 0 <= k < |tail| && tail[k] == r[j];
        }
      }
    } else if ss != [] {
      DistinctTail(ss);
    }
  }

  lemma {:induction false} RemoveFirstSubset(ss: seq<Session>, s: Session)
    ensures forall x :: x in RemoveFirst(ss, s) ==> x in ss
  {
    if ss != [] && ss[0] != s {
      RemoveFirstSubset(ss[1..], s);
    }
  }

  lemma DistinctTail(ss: seq<Session>)
    requires Distinct(ss) && ss != []
    ensures Distinct(ss[1..])
  {
    var tail := ss[1..];
    forall i, j | 0 <= i < j < |tail| ensures tail[i] != tail[j] {
      assert tail[i] == ss[i + 1] && tail[j] == ss[j + 1];
    }
  }

  class User {
    /** The id the database assigns. */
    const id: int
    var login: string
    /** The bcrypt hash of the password. */
    var password: string
    var sessions: seq<Session>

    /** A new user has no sessions. */
    constructor (id: int)
      ensures this.id == id && sessions == [] && login == "" && password == ""
    {
      this.id := id;
      login := "";
      password := "";
      sessions := [];
    }

    method SetLogin(l: string)
      modifies this
      ensures login == l
      ensures password == old(password) && sessions == old(sessions)
    {
      login := l;
    }

    /** setPassword stores the hash of the password; hashing is the parameter hash. */
    method SetPassword(p: string, hash: string -> string)
      modifies this
      ensures password == hash(p)
      ensures login == old(login) && sessions == old(sessions)
    {
      password := hash(p);
    }

    /** password_verify of the password against the stored hash; the check is the parameter
        verify. */
    predicate VerifyPassword(p: string, verify: (string, string) -> bool)
      reads this
    {
      verify(p, password)
    }

    /** addSession: a session not yet in the collection is appended and gets this user as its
        owner; adding one already present changes nothing. */
    method AddSession(s: Session)
      modifies this, s
      ensures s in old(sessions) ==> sessions == old(sessions) && s.user == old(s.user)
      ensures s !in old(sessions) ==> sessions == old(sessions) + [s] && s.user == this
      ensures s.token == old(s.token) && s.expiresAt == old(s.expiresAt)
      ensures login == old(login) && password == old(password)
    {
      if s !in sessions {
        sessions := sessions + [s];
        var typeError := s.SetUser(this);
      }
    }

    /** removeSession: an absent session changes nothing; a present one is taken out of the
        collection, and then clearing its owner fails with a TypeError, so the session keeps
        pointing at this user. */
    method RemoveSession(s: Session) returns (typeError: bool)
      modifies this, s
      ensures typeError <==> s in old(sessions)
      ensures sessions == RemoveFirst(old(sessions), s)
      ensures s.user == old(s.user) && s.token == old(s.token) && s.expiresAt == old(s.expiresAt)
      ensures login == old(login) && password == old(password)
    {
      typeError := false;
      if s in sessions {
        sessions := RemoveFirst(sessions, s);
        typeError := s.SetUser(null);
      }
    }
  }

  /** addSession keeps the collection duplicate-free. */
  lemma AddKeepsDistinct(ss: seq<Session>, s: Session)
    requires Distinct(ss) && s !in ss
    ensures Distinct(ss + [s])
  {
    var r := ss + [s];
    forall i, j | 0 <= i < j < |r| ensures r[i] != r[j] {
      if j == |ss| {
        assert r[i] == ss[i];
      } else {
        assert r[i] == ss[i] && r[j] == ss[j];
      }
    }
  }
}
