/** The user operations: two cached reads into the one `users` cache, and the
    synchronisation of a signed-in identity into the users table.

    The signed token is reduced to the claims the synchronisation reads:
    email, subject, given and family name, and the optional permissions list. */
module UserService {
  import opened Outcomes
  import opened Entities
  import opened System
  import Store
  import Caches
  import Rows

  datatype Claims = Claims(
    email: string,
    subject: string,
    givenName: string,
    familyName: string,
    permissions: Option<seq<string>>)

  /** `List.contains`. */
  function Contains(ps: seq<string>, p: string): (r: bool)
    ensures r <==> p in ps
  {
    if |ps| == 0 then false else ps[0] == p || Contains(ps[1..], p)
  }

  /** ADMIN exactly when the permissions claim is present and lists "admin". */
  function DetermineRole(c: Claims): (r: Role)
    ensures r == AdminRole <==> c.permissions.Some? && "admin" in c.permissions.value
  {
    if c.permissions.Some? && Contains(c.permissions.value, "admin") then AdminRole else UserRole
  }

  /** `getUserByEmail`: read-through on the users cache, keyed by the email as is. */
  function GetUserByEmail(s: Sys, email: string): (r: Reply<UserView>)
    ensures r.after.db == s.db
    ensures r.after.caches.(users := s.caches.users) == s.caches
    ensures email in s.caches.users ==> r.result == Ok(s.caches.users[email]) && r.after == s
    ensures email !in s.caches.users ==>
      && (r.result.Ok? <==> exists u :: u in s.db.users && u.email == email)
      && (r.result.Ok? ==> exists u :: u in s.db.users && u.email == email && r.result.value == ViewOfUser(u))
      && (r.result.Ok? ==> r.after.caches.users == s.caches.users[email := r.result.value])
      && (r.result.Err? ==> r.result == Err(NotFound("User not found")) && r.after == s)
  {
    var load := match Store.FindUserByEmail(s.db, email)
      case None => Err(NotFound("User not found"))
      case Some(u) => Ok(ViewOfUser(u));
    var (result, entries) := Caches.ReadThrough(s.caches.users, email, load, Caches.KeepAll());
    Reply(result, s.(caches := s.caches.(users := entries)))
  }

  /** `getUserById`: read-through on the same users cache, keyed by the id's
      decimal text. */
  function GetUserById(s: Sys, id: int): (r: Reply<UserView>)
    ensures r.after.db == s.db
    ensures r.after.caches.(users := s.caches.users) == s.caches
    ensures Caches.IdKey(id) in s.caches.users ==> r.result == Ok(s.caches.users[Caches.IdKey(id)]) && r.after == s
    ensures Caches.IdKey(id) !in s.caches.users ==>
      && (r.result.Ok? <==> Store.HasUser(s.db.users, id))
      && (r.result.Ok? ==> exists u :: u in s.db.users && u.id == id && r.result.value == ViewOfUser(u))
      && (r.result.Ok? ==> r.after.caches.users == s.caches.users[Caches.IdKey(id) := r.result.value])
      && (r.result.Err? ==> r.result == Err(NotFound("User not found")) && r.after == s)
  {
    var load := match Store.FindUser(s.db, id)
      case None => Err(NotFound("User not found"))
      case Some(u) => Ok(ViewOfUser(u));
    var (result, entries) := Caches.ReadThrough(s.caches.users, Caches.IdKey(id), load, Caches.KeepAll());
    Reply(result, s.(caches := s.caches.(users := entries)))
  }

  /** A user other than the one with id `self` already holding `subject`. */
  function HoldsSubject(subject: string, self: int): User -> bool {
    (v: User) => v.auth0Id == Some(subject) && v.id != self
  }

  /** The row a first sign-in inserts: active, with the claims' identity and
      names, no phone, and ADMIN exactly when the permissions list "admin". */
  function NewUser(id: int, c: Claims): (u: User)
    ensures u.id == id && u.email == c.email && u.auth0Id == Some(c.subject)
    ensures u.firstName == c.givenName && u.lastName == c.familyName
    ensures u.phoneNumber.None? && u.active
    ensures u.role == AdminRole <==> c.permissions.Some? && "admin" in c.permissions.value
  {
    User(id, c.email, Some(c.subject), c.givenName, c.familyName, None, DetermineRole(c), true)
  }

  /** `createOrUpdateUserFromAuth0`. A user already stored under the email only
      has its subject overwritten: its names, phone, role and active flag stay.
      Otherwise a new active user is inserted with the names from the claims and
      the role the permissions give. The subject column is unique, so a subject
      already held by another user is refused by the store and the transaction
      rolls back; a refused insert of a new user still uses up the identity
      value it drew, while a refused update of a stored user draws none. On
      success every entry of the users cache is evicted. */
  function SyncUser(s: Sys, c: Claims): (r: Reply<UserView>)
    ensures r.result.Err? ==> r.result.error.Integrity?
    ensures r.result.Err? && Store.FindUserByEmail(s.db, c.email).Some? ==> r.after == s
    ensures r.result.Err? && Store.FindUserByEmail(s.db, c.email).None? ==>
      r.after == s.(db := s.db.(nextUserId := s.db.nextUserId + 1))
    ensures Store.FindUserByEmail(s.db, c.email).Some? ==>
      (r.result.Err? <==> exists v :: v in s.db.users && v.auth0Id == Some(c.subject)
                                      && v.id != Store.FindUserByEmail(s.db, c.email).value.id)
    ensures Store.FindUserByEmail(s.db, c.email).None? ==>
      (r.result.Err? <==> exists v :: v in s.db.users && v.auth0Id == Some(c.subject) && v.id != s.db.nextUserId)
    ensures r.result.Ok? ==>
      && Store.FindUserByEmail(r.after.db, c.email).Some?
      && var u := Store.FindUserByEmail(r.after.db, c.email).value;
      && u.auth0Id == Some(c.subject)
      && r.result.value == ViewOfUser(u)
      && (forall e :: e != c.email ==> Store.FindUserByEmail(r.after.db, e) == Store.FindUserByEmail(s.db, e))
      && r.after.db.flights == s.db.flights && r.after.db.bookings == s.db.bookings
      && r.after.caches == s.caches.(users := map[])
      && (Store.WellFormed(s.db) ==> Store.WellFormed(r.after.db))
    ensures r.result.Ok? && Store.FindUserByEmail(s.db, c.email).Some? ==>
      var before := Store.FindUserByEmail(s.db, c.email).value;
      Store.FindUserByEmail(r.after.db, c.email) == Some(before.(auth0Id := Some(c.subject)))
      && |r.after.db.users| == |s.db.users|
    ensures r.result.Ok? && Store.FindUserByEmail(s.db, c.email).None? ==>
      var u := Store.FindUserByEmail(r.after.db, c.email).value;
      && u.id == s.db.nextUserId && u.firstName == c.givenName && u.lastName == c.familyName
      && u.phoneNumber.None? && u.active
      && (u.role == AdminRole <==> c.permissions.Some? && "admin" in c.permissions.value)
      && r.after.db.users == s.db.users + [u]
  {
    match Store.FindUserByEmail(s.db, c.email)
    case Some(before) => Relink(s, c, before)
    case None => Register(s, c)
  }

  /** Every entry of the users cache evicted, as a successful synchronisation leaves it. */
  function Cleared(s: Sys): (c: Caches.Caches)
    ensures c == s.caches.(users := map[])
  {
    Caches.UserSyncClears(s.caches);
    Caches.Evict(s.caches, Caches.UserSyncEvictions())
  }

  /** The synchronisation of a user already stored under the email: only its
      subject is overwritten. */
  function Relink(s: Sys, c: Claims, before: User): (r: Reply<UserView>)
    requires Store.FindUserByEmail(s.db, c.email) == Some(before)
    ensures r.result.Err? <==> exists v :: v in s.db.users && v.auth0Id == Some(c.subject) && v.id != before.id
    ensures r.result.Err? ==> r.result.error.Integrity? && r.after == s
    ensures r.result.Ok? ==>
      var u := before.(auth0Id := Some(c.subject));
      && r.result.value == ViewOfUser(u)
      && Store.FindUserByEmail(r.after.db, c.email) == Some(u)
      && (forall e :: e != c.email ==> Store.FindUserByEmail(r.after.db, e) == Store.FindUserByEmail(s.db, e))
      && r.after.db == s.db.(users := r.after.db.users) && |r.after.db.users| == |s.db.users|
      && r.after.caches == s.caches.(users := map[])
      && (Store.WellFormed(s.db) ==> Store.WellFormed(r.after.db))
  {
    var i := Rows.IndexWhere(s.db.users, Store.UserWithEmail(c.email)).value;
    var u := before.(auth0Id := Some(c.subject));
    if Rows.Find(s.db.users, HoldsSubject(c.subject, u.id)).Some? then
      Reply(Err(Integrity("subject " + c.subject + " belongs to another user")), s)
    else
      Reply(Ok(ViewOfUser(u)), Sys(Store.PutUser(s.db, i, u), Cleared(s)))
  }

  /** The synchronisation of an email not yet stored: a new row under the next id. */
  function Register(s: Sys, c: Claims): (r: Reply<UserView>)
    requires Store.FindUserByEmail(s.db, c.email).None?
    ensures r.result.Err? <==> exists v :: v in s.db.users && v.auth0Id == Some(c.subject) && v.id != s.db.nextUserId
    ensures r.result.Err? ==>
      && r.result.error.Integrity?
      && r.after == s.(db := s.db.(nextUserId := s.db.nextUserId + 1))
    ensures r.result.Ok? ==>
      var u := NewUser(s.db.nextUserId, c);
      && r.result.value == ViewOfUser(u)
      && Store.FindUserByEmail(r.after.db, c.email) == Some(u)
      && (forall e :: e != c.email ==> Store.FindUserByEmail(r.after.db, e) == Store.FindUserByEmail(s.db, e))
      && r.after.db.users == s.db.users + [u]
      && r.after.db.flights == s.db.flights && r.after.db.bookings == s.db.bookings
      && r.after.caches == s.caches.(users := map[])
      && (Store.WellFormed(s.db) ==> Store.WellFormed(r.after.db))
  {
    var u := NewUser(s.db.nextUserId, c);
    if Rows.Find(s.db.users, HoldsSubject(c.subject, u.id)).Some? then
      Reply(Err(Integrity("subject " + c.subject + " belongs to another user")),
            s.(db := Store.RefuseUserInsert(s.db)))
    else
      Reply(Ok(ViewOfUser(u)), Sys(Store.AddUser(s.db, u), Cleared(s)))
  }

  /** In a well-formed store the subject a user holds is held by no other row. */
  lemma SubjectHeldOnce(db: Store.Db, k: nat, subject: string)
    requires Store.WellFormed(db)
    requires k < |db.users| && db.users[k].auth0Id == Some(subject)
    ensures Rows.Find(db.users, HoldsSubject(subject, db.users[k].id)).None?
  {
    forall j | 0 <= j < |db.users|
      ensures !HoldsSubject(subject, db.users[k].id)(db.users[j])
    {
    }
  }

  /** Signing in twice with the same claims: the second synchronisation
      succeeds, returns the same user and leaves the table as the first left it. */
  lemma SyncUserIdempotent(s: Sys, c: Claims)
    requires Store.WellFormed(s.db)
    requires SyncUser(s, c).result.Ok?
    ensures SyncUser(SyncUser(s, c).after, c).result == SyncUser(s, c).result
    ensures SyncUser(SyncUser(s, c).after, c).after.db == SyncUser(s, c).after.db
  {
    var first := SyncUser(s, c);
    var db := first.after.db;
    var k := Rows.IndexWhere(db.users, Store.UserWithEmail(c.email)).value;
    var u := db.users[k];
    assert Store.FindUserByEmail(db, c.email) == Some(u);
    assert u.(auth0Id := Some(c.subject)) == u;
    assert db.users[k := u] == db.users;
    SubjectHeldOnce(db, k, c.subject);
  }

  /** A refused registration still uses up an identity value: the next user
      registered is keyed one past the id the refused one drew. A refused
      relink of a stored user draws none. */
  lemma RefusedRegisterSkipsId(s: Sys, refused: Claims, next: Claims)
    requires Store.FindUserByEmail(s.db, refused.email).None?
    requires SyncUser(s, refused).result.Err?
    requires Store.FindUserByEmail(s.db, next.email).None?
    requires SyncUser(SyncUser(s, refused).after, next).result.Ok?
    ensures var after := SyncUser(SyncUser(s, refused).after, next).after;
      && Store.FindUserByEmail(after.db, next.email).Some?
      && Store.FindUserByEmail(after.db, next.email).value.id == s.db.nextUserId + 1
  {
  }

  /** The two reads share the users cache, and an email key is the email as
      it is while an id key is the id's decimal text: a lookup by the email
      "7" fills the entry that a later lookup of user 7 reads, which then
      answers with the other user. */
  lemma EmailAndIdKeysCollide()
    ensures
      var seven := User(7, "ann@example.org", None, "Ann", "Lee", None, UserRole, true);
      var other := User(8, "7", None, "Bo", "Tran", None, UserRole, true);
      var s := Sys(Store.Db([], [], [seven, other], 1, 1, 9), Caches.NoEntries());
      && Store.FindUser(s.db, 7) == Some(seven)
      && GetUserById(GetUserByEmail(s, "7").after, 7).result == Ok(ViewOfUser(other))
  {
    var seven := User(7, "ann@example.org", None, "Ann", "Lee", None, UserRole, true);
    var other := User(8, "7", None, "Bo", "Tran", None, UserRole, true);
    var s := Sys(Store.Db([], [], [seven, other], 1, 1, 9), Caches.NoEntries());
    assert Caches.IdKey(7) == "7";
    assert seven.email != "7";
    assert Rows.IndexWhere(s.db.users, Store.UserWithEmail("7")) == Some(1);
    assert Rows.IndexWhere(s.db.users, Store.UserWithId(7)) == Some(0);
  }
}
