/**
 * UserManager.java: the login session, kept in the app's private key-value
 * store under two keys, the bearer token and the signed-in user (the user's
 * JSON text). Writing a null string under a key removes the key. Whether a
 * stored text parses as a JSON object is decided by the JSON library, which
 * is passed in here as a predicate.
 */
module UserManager {
  import opened Entities

  /** The key-value store's contents. */
  type Prefs = map<string, string>

  const KEY_TOKEN: string := "token"
  const KEY_USER: string := "user"

  /** `getString(key, null)`. */
  function Lookup(prefs: Prefs, key: string): (r: Option<string>)
    ensures r.Some? <==> key in prefs
    ensures r.Some? ==> r.value == prefs[key]
  {
    if key in prefs then Some(prefs[key]) else None
  }

  /** `putString(key, value)`, where a null value removes the key. */
  function Put(prefs: Prefs, key: string, value: Option<string>): (r: Prefs)
    ensures Lookup(r, key) == value
    ensures forall k :: k != key ==> Lookup(r, k) == Lookup(prefs, k)
  {
    match value
    case Some(v) => prefs[key := v]
    case None => prefs - {key}
  }

  /** The store after `saveLogin(token, user)`: both keys written in one edit. */
  function AfterSaveLogin(prefs: Prefs, token: Option<string>, userJson: string): (r: Prefs)
    ensures Lookup(r, KEY_TOKEN) == token
    ensures Lookup(r, KEY_USER) == Some(userJson)
    ensures forall k :: k != KEY_TOKEN && k != KEY_USER ==> Lookup(r, k) == Lookup(prefs, k)
  {
    assert KEY_TOKEN != KEY_USER;
    Put(Put(prefs, KEY_TOKEN, token), KEY_USER, Some(userJson))
  }

  /** The store after `logout()`: the edit clears every key. */
  function AfterLogout(prefs: Prefs): (r: Prefs)
    ensures forall k :: Lookup(r, k) == None
  {
    map[]
  }

  /** `getToken()`: the stored token, or null. */
  function TokenIn(prefs: Prefs): (r: Option<string>)
    ensures r.Some? <==> KEY_TOKEN in prefs
    ensures r.Some? ==> r.value == prefs[KEY_TOKEN]
  {
    Lookup(prefs, KEY_TOKEN)
  }

  /** `getUser()`: the stored user text, when there is one and it parses as a JSON
      object; every failure reads as no user. */
  function UserIn(prefs: Prefs, parsesAsObject: string -> bool): (r: Option<string>)
    ensures r.Some? <==> KEY_USER in prefs && parsesAsObject(prefs[KEY_USER])
    ensures r.Some? ==> r.value == prefs[KEY_USER]
  {
    match Lookup(prefs, KEY_USER)
    case None => None
    case Some(text) => if parsesAsObject(text) then Some(text) else None
  }

  /** `isLoggedIn()`: a token is stored. */
  predicate LoggedInWith(prefs: Prefs)
    ensures LoggedInWith(prefs) <==> KEY_TOKEN in prefs
  {
    TokenIn(prefs).Some?
  }

  /** After `saveLogin(t, u)` the token read back is `t`, the user read back is `u` when it
      parses, the session is open exactly when `t` is not null, and no other key changes. */
  lemma SaveLoginReadsBack(prefs: Prefs, token: Option<string>, userJson: string, parsesAsObject: string -> bool)
    ensures TokenIn(AfterSaveLogin(prefs, token, userJson)) == token
    ensures UserIn(AfterSaveLogin(prefs, token, userJson), parsesAsObject)
            == if parsesAsObject(userJson) then Some(userJson) else None
    ensures LoggedInWith(AfterSaveLogin(prefs, token, userJson)) <==> token.Some?
    ensures forall k :: k != KEY_TOKEN && k != KEY_USER ==>
              Lookup(AfterSaveLogin(prefs, token, userJson), k) == Lookup(prefs, k)
  {
    var p1 := Put(prefs, KEY_TOKEN, token);
    assert KEY_TOKEN != KEY_USER;
    assert Lookup(Put(p1, KEY_USER, Some(userJson)), KEY_TOKEN) == Lookup(p1, KEY_TOKEN);
    assert Lookup(Put(p1, KEY_USER, Some(userJson)), KEY_USER) == Some(userJson);
  }

  /** A second `saveLogin` leaves exactly what the second one alone would have left:
      nothing of the first token or user survives. */
  lemma SecondSaveOverwrites(prefs: Prefs, t1: Option<string>, u1: string, t2: Option<string>, u2: string)
    ensures AfterSaveLogin(AfterSaveLogin(prefs, t1, u1), t2, u2) == AfterSaveLogin(prefs, t2, u2)
  {
    var a := AfterSaveLogin(AfterSaveLogin(prefs, t1, u1), t2, u2);
    var b := AfterSaveLogin(prefs, t2, u2);
    assert KEY_TOKEN != KEY_USER;
    forall k ensures Lookup(a, k) == Lookup(b, k) {
      if k != KEY_TOKEN && k != KEY_USER {
        SaveLoginReadsBack(AfterSaveLogin(prefs, t1, u1), t2, u2, _ => true);
        SaveLoginReadsBack(prefs, t1, u1, _ => true);
        SaveLoginReadsBack(prefs, t2, u2, _ => true);
      }
    }
    forall k ensures k in a <==> k in b {
      assert (k in a <==> Lookup(a, k).Some?) && (k in b <==> Lookup(b, k).Some?);
    }
    forall k | k in a ensures a[k] == b[k] {
      assert Lookup(a, k).value == a[k] && Lookup(b, k).value == b[k];
    }
  }

  /** After `logout()` nothing is stored: no token, no user, no session. */
  lemma LogoutEndsSession(prefs: Prefs, parsesAsObject: string -> bool)
    ensures TokenIn(AfterLogout(prefs)) == None
    ensures UserIn(AfterLogout(prefs), parsesAsObject) == None
    ensures !LoggedInWith(AfterLogout(prefs))
  {
  }

  class UserManager {
    /** The store behind `prefs`. */
    var prefs: Prefs

    /** `UserManager(context)`: opens the app's private store, with whatever an earlier
        session left in it. */
    constructor (stored: Prefs)
      ensures prefs == stored
    {
      prefs := stored;
    }

    method SaveLogin(token: Option<string>, userJson: string)
      modifies this
      ensures prefs == AfterSaveLogin(old(prefs), token, userJson)
      ensures GetToken() == token
      ensures IsLoggedIn() <==> token.Some?
    {
      prefs := AfterSaveLogin(prefs, token, userJson);
      SaveLoginReadsBack(old(prefs), token, userJson, _ => true);
    }

    function GetToken(): (r: Option<string>)
      reads this
      ensures r.Some? <==> KEY_TOKEN in prefs
      ensures r.Some? ==> r.value == prefs[KEY_TOKEN]
    {
      TokenIn(prefs)
    }

    function GetUser(parsesAsObject: string -> bool): (r: Option<string>)
      reads this
      ensures r.Some? <==> KEY_USER in prefs && parsesAsObject(prefs[KEY_USER])
      ensures r.Some? ==> r.value == prefs[KEY_USER]
    {
      UserIn(prefs, parsesAsObject)
    }

    method Logout()
      modifies this
      ensures prefs == AfterLogout(old(prefs))
      ensures GetToken() == None && !IsLoggedIn()
      ensures forall parsesAsObject: string -> bool :: GetUser(parsesAsObject) == None
    {
      prefs := AfterLogout(prefs);
    }

    /** `isLoggedIn()`: exactly when `getToken()` is not null. */
    predicate IsLoggedIn()
      reads this
      ensures IsLoggedIn() <==> GetToken().Some?
    {
      LoggedInWith(prefs)
    }
  }
}
