/** The user store and the session state of the app: `registered_users`, `authenticated` and
    `current_user` in `st.session_state`, and the handlers of the sign-up, sign-in, logout,
    reset-password, recommend and surprise actions that update them in place. */
module Accounts {
  import opened Wrappers
  import opened Slices
  import Recommender

  /** One value of `registered_users`: `{"password": ..., "name": ..., "history": [...]}`. */
  datatype UserRecord = UserRecord(password: string, name: string, history: seq<string>)

  /** The sidebar lists `history[-10:]`. */
  const RECENT_SHOWN: nat := 10

  class App {
    /** `registered_users`: email to record. */
    var registeredUsers: map<string, UserRecord>
    /** `authenticated`. */
    var authenticated: bool
    /** `current_user`: `None` until a sign-in succeeds. */
    var currentUser: Option<string>

    /** Signed in exactly when a current user is set, and that user is registered, so the
        lookup `registered_users[current_user]` of the signed-in page always succeeds. */
    ghost predicate Valid()
      reads this
    {
      && (authenticated <==> currentUser.Some?)
      && (currentUser.Some? ==> currentUser.value in registeredUsers)
    }

    /** A new session: the store as loaded from disk (an empty map when there is no file),
        signed out. */
    constructor (loaded: map<string, UserRecord>)
      ensures Valid()
      ensures registeredUsers == loaded && !authenticated && currentUser == None
    {
      registeredUsers := loaded;
      authenticated := false;
      currentUser := None;
    }

    /** The record of the signed-in user, `user_data`: the lookup never fails on the signed-in
        page, and what it finds is one of the stored records. */
    function CurrentRecord(): (r: UserRecord)
      reads this
      requires Valid() && authenticated
      ensures r in registeredUsers.Values
    {
      registeredUsers[currentUser.value]
    }

    /** Sign Up: an email already in the store is refused and nothing changes; otherwise exactly
        one record with the given password and name and an empty history is added under that
        email. Registering does not sign in. */
    method SignUp(email: string, fullName: string, password: string) returns (registered: bool)
      requires Valid() && !authenticated
      modifies this
      ensures Valid()
      ensures registered <==> email !in old(registeredUsers)
      ensures registeredUsers == if registered
        then old(registeredUsers)[email := UserRecord(password, fullName, [])]
        else old(registeredUsers)
      ensures authenticated == old(authenticated) && currentUser == old(currentUser)
    {
      if email in registeredUsers {
        registered := false;
      } else {
        registeredUsers := registeredUsers[email := UserRecord(password, fullName, [])];
        registered := true;
      }
    }

    /** Sign In: succeeds exactly when the email is registered and its stored password equals
        the given one character for character; success sets both session fields, failure
        changes nothing. The store is never changed. */
    method SignIn(email: string, password: string) returns (ok: bool)
      requires Valid() && !authenticated
      modifies this
      ensures Valid()
      ensures ok <==> email in old(registeredUsers) && old(registeredUsers)[email].password == password
      ensures registeredUsers == old(registeredUsers)
      ensures ok ==> authenticated && currentUser == Some(email)
      ensures !ok ==> authenticated == old(authenticated) && currentUser == old(currentUser)
    {
      if email in registeredUsers && registeredUsers[email].password == password {
        authenticated := true;
        currentUser := Some(email);
        ok := true;
      } else {
        ok := false;
      }
    }

    /** Logout: clears both session fields and leaves the store alone. */
    method Logout()
      requires Valid() && authenticated
      modifies this
      ensures Valid()
      ensures !authenticated && currentUser == None
      ensures registeredUsers == old(registeredUsers)
    {
      authenticated := false;
      currentUser := None;
    }

    /** Reset Password: overwrites the password of the signed-in user, keeping its name and
        history, every other record, and the session. */
    method ResetPassword(newPassword: string)
      requires Valid() && authenticated
      modifies this
      ensures Valid()
      ensures authenticated && currentUser == old(currentUser)
      ensures registeredUsers ==
        old(registeredUsers)[old(currentUser).value := old(CurrentRecord()).(password := newPassword)]
    {
      var email := currentUser.value;
      registeredUsers := registeredUsers[email := registeredUsers[email].(password := newPassword)];
    }

    /** Recommend: runs `recommend` on the selected title and then appends that title to the
        signed-in user's history. When `recommend` raises, the append is never reached and
        nothing changes. */
    method Recommend(titles: seq<string>, similarity: seq<seq<int>>, selected: string)
      returns (names: Result<seq<string>, Recommender.RecommendError>)
      requires Valid() && authenticated
      modifies this
      ensures Valid()
      ensures names == Recommender.Recommend(titles, similarity, selected)
      ensures authenticated && currentUser == old(currentUser)
      ensures registeredUsers == if names.Success?
        then old(registeredUsers)[old(currentUser).value :=
               old(CurrentRecord()).(history := old(CurrentRecord()).history + [selected])]
        else old(registeredUsers)
    {
      names := Recommender.Recommend(titles, similarity, selected);
      if names.Success? {
        var email := currentUser.value;
        var user := registeredUsers[email];
        registeredUsers := registeredUsers[email := user.(history := user.history + [selected])];
      }
    }

    /** Surprise Me: picks a catalog title (position `choice`, standing for the random pick)
        and appends it to the signed-in user's history. `random.choice` raises on an empty
        catalog, and then nothing changes. */
    method Surprise(titles: seq<string>, choice: nat) returns (picked: Option<string>)
      requires Valid() && authenticated
      requires |titles| > 0 ==> choice < |titles|
      modifies this
      ensures Valid()
      ensures picked.Some? <==> |titles| > 0
      ensures picked.Some? ==> picked.value == titles[choice] && picked.value in titles
      ensures authenticated && currentUser == old(currentUser)
      ensures registeredUsers == if picked.Some?
        then old(registeredUsers)[old(currentUser).value :=
               old(CurrentRecord()).(history := old(CurrentRecord()).history + [picked.value])]
        else old(registeredUsers)
    {
      if |titles| == 0 {
        picked := None;
      } else {
        var title := titles[choice];
        var email := currentUser.value;
        var user := registeredUsers[email];
        registeredUsers := registeredUsers[email := user.(history := user.history + [title])];
        picked := Some(title);
      }
    }

    /** Recent Searches: the last ten titles of the signed-in user's history, oldest first,
        or the whole history when it is shorter. */
    function RecentSearches(): (r: seq<string>)
      reads this
      requires Valid() && authenticated
      ensures |r| == Min(RECENT_SHOWN, |CurrentRecord().history|)
      ensures r == CurrentRecord().history[|CurrentRecord().history| - |r|..]
    {
      LastN(CurrentRecord().history, RECENT_SHOWN)
    }
  }

  /** A session as a client sees it through the contracts alone: a second sign-up of the same
      email is refused, a wrong password is refused, the right one signs in to a record with
      the registered name and an empty history, and each action appends one title in call order. */
  method SessionScenario(titles: seq<string>, similarity: seq<seq<int>>)
    requires |titles| > 0
  {
    var app := new App(map[]);
    var ok := app.SignUp("u@x.com", "Udit", "pw1");
    assert ok;
    ok := app.SignUp("u@x.com", "Other", "pw2");
    assert !ok && app.registeredUsers == map["u@x.com" := UserRecord("pw1", "Udit", [])];
    ok := app.SignIn("u@x.com", "wrong");
    assert !ok && !app.authenticated;
    ok := app.SignIn("u@x.com", "pw1");
    assert ok && app.CurrentRecord() == UserRecord("pw1", "Udit", []);
    var picked := app.Surprise(titles, 0);
    assert app.CurrentRecord().history == [titles[0]];
    var names := app.Recommend(titles, similarity, titles[0]);
    app.ResetPassword("pw3");
    assert app.CurrentRecord().name == "Udit" && app.CurrentRecord().password == "pw3";
    assert names.Success? ==> app.RecentSearches() == [titles[0], titles[0]];
    app.Logout();
    ok := app.SignIn("u@x.com", "pw1");
    assert !ok;
  }
}
