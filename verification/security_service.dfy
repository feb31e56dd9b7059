/** The PIN that locks the journal: its hash is kept in the first (and only)
    row of the User table. */
module Security {
  import opened Wrappers
  import opened Dates
  import opened Models
  import opened Storage

  /** A PIN is set when a User row exists and its hash is not empty. */
  predicate PinIsSet(us: seq<User>) {
    FirstUser(us).Some? && FirstUser(us).value.pinHash != ""
  }

  /** A PIN whose hash is hash is accepted when a User row exists and the
      first row holds exactly that hash. */
  predicate PinAccepted(us: seq<User>, hash: string) {
    FirstUser(us).Some? && FirstUser(us).value.pinHash == hash
  }

  /** The User table after setting the PIN whose hash is hash: the first row
      takes the hash, or a first row is inserted when there is none. */
  function SetPinUsers(us: seq<User>, next: int, hash: string, now: DateTime): seq<User> {
    if us == [] then [User(next, hash, now)]
    else ReplaceUser(us, us[0].(pinHash := hash))
  }

  /** Setting the PIN never adds a second row, and afterwards the PIN is set,
      accepted, and every PIN with another hash is refused. */
  lemma SetPinThenVerify(us: seq<User>, next: int, hash: string, now: DateTime, other: string)
    requires hash != ""
    ensures var r := SetPinUsers(us, next, hash, now);
      && |r| == (if us == [] then 1 else |us|)
      && PinIsSet(r)
      && PinAccepted(r, hash)
      && (other != hash ==> !PinAccepted(r, other))
  {
  }

  /** Setting the PIN changes only the hash of the first row. */
  lemma SetPinKeepsRows(us: seq<User>, next: int, hash: string, now: DateTime)
    requires UsersValid(us, next) && us != []
    ensures SetPinUsers(us, next, hash, now) == us[0 := us[0].(pinHash := hash)]
  {
    var r := SetPinUsers(us, next, hash, now);
    forall i | 0 <= i < |us| ensures r[i] == us[0 := us[0].(pinHash := hash)][i] {
      if i > 0 {
        assert us[i].id != us[0].id;
      }
    }
  }

  class SecurityService {
    const db: DatabaseService
    /** The hash of a PIN (the base64 text of its SHA-256 digest): a fixed
        function whose results are never empty. */
    const hashPin: string -> string

    ghost predicate HashValid() {
      forall p :: hashPin(p) != ""
    }

    constructor(db: DatabaseService, hashPin: string -> string)
      requires forall p :: hashPin(p) != ""
      ensures this.db == db && this.hashPin == hashPin && HashValid()
    {
      this.db := db;
      this.hashPin := hashPin;
    }

    method IsPinSet() returns (r: bool)
      modifies db
      requires db.Valid()
      ensures db.Valid() && db.ReadOnly()
      ensures r <==> PinIsSet(db.users)
    {
      var user := db.GetUser();
      r := user.Some? && user.value.pinHash != "";
    }

    /** Stores the hash of pin in the User row, inserting the row (created
        now) when there is none. */
    method SetPin(pin: string, now: DateTime)
      modifies db
      requires db.Valid() && HashValid()
      ensures db.Valid() && db.Opened() && db.EntriesKept() && db.TagsKept()
      ensures db.users == SetPinUsers(old(db.users), old(db.nextUserId), hashPin(pin), now)
      ensures PinIsSet(db.users) && PinAccepted(db.users, hashPin(pin))
    {
      var hash := hashPin(pin);
      var user := db.GetUser();
      var toSave: User;
      if user.None? {
        toSave := User(0, hash, now);
      } else {
        toSave := user.value.(pinHash := hash);
      }
      SetPinThenVerify(db.users, db.nextUserId, hash, now, hash);
      var _ := db.SaveUser(toSave);
    }

    /** Whether pin is the stored PIN; false when no User row exists. */
    method VerifyPin(pin: string) returns (r: bool)
      modifies db
      requires db.Valid()
      ensures db.Valid() && db.ReadOnly()
      ensures r <==> PinAccepted(db.users, hashPin(pin))
      ensures db.users == [] ==> !r
    {
      var user := db.GetUser();
      if user.None? {
        return false;
      }
      var hash := hashPin(pin);
      r := user.value.pinHash == hash;
    }
  }
}
