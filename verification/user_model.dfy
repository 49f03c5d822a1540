/**
 * The User document (backend/src/models/User.js): unique username and
 * email, a password of at least six characters that is stored hashed, and
 * a profile image URL that defaults to the empty string.
 */
module UserModel {
  import opened Opt
  import opened Js
  import opened Http

  datatype User = User(
    id: ObjectId,
    username: string,
    email: string,
    password: string,
    profileImage: string,
    createdAt: int,
    updatedAt: int)

  /** The users collection: documents keyed by their `_id`. */
  type UserStore = map<ObjectId, User>

  const MinPasswordLength: nat := 6

  /** No two users share a username, and no two share an email. */
  ghost predicate UniqueUsers(users: UserStore) {
    forall a, b :: a in users && b in users && a != b ==>
      users[a].username != users[b].username && users[a].email != users[b].email
  }

  /** Every stored user sits under its own id and has a non-empty username and email. */
  ghost predicate WellFormedUsers(users: UserStore) {
    forall id :: id in users ==>
      && users[id].id == id
      && users[id].username != ""
      && users[id].email != ""
  }

  /** Some stored user has this email (`User.findOne({ email })` finds a document). */
  predicate EmailTaken(users: UserStore, email: string) {
    exists id :: id in users && users[id].email == email
  }

  /** Some stored user has this username. */
  predicate UsernameTaken(users: UserStore, username: string) {
    exists id :: id in users && users[id].username == username
  }

  /** A User document before `save()`; `None` marks a path left unset or not castable. */
  datatype UserDraft = UserDraft(
    username: Option<string>,
    email: Option<string>,
    password: Option<string>,
    profileImage: string)

  /** `new User({...})`: a profile image that is not supplied takes the schema default `""`. */
  function NewUser(username: Option<string>, email: Option<string>, password: Option<string>,
                   profileImage: Option<string>): (d: UserDraft)
    ensures d.username == username && d.email == email && d.password == password
    ensures profileImage.None? ==> d.profileImage == ""
    ensures profileImage.Some? ==> d.profileImage == profileImage.value
  {
    UserDraft(username, email, password, profileImage.GetOr(""))
  }

  /**
   * The schema's validators, run before the save hooks: username, email and
   * password present and non-empty, the password at least six UTF-16 code
   * units long.
   */
  predicate ValidDraft(d: UserDraft) {
    && d.username.Some? && d.username.value != ""
    && d.email.Some? && d.email.value != ""
    && d.password.Some? && Utf16Length(d.password.value) >= MinPasswordLength
  }

  /**
   * The pre-save hook: replace the password by its hash when the password
   * path was modified, leave the document alone otherwise. `hash` stands for
   * bcrypt with a freshly generated salt.
   */
  function PreSave(u: User, passwordModified: bool, hash: string -> string): (r: User)
    ensures passwordModified ==> r.password == hash(u.password)
    ensures !passwordModified ==> r == u
    ensures r.(password := u.password) == u
  {
    if passwordModified then u.(password := hash(u.password)) else u
  }

  /**
   * `save()` of a new user: validation, then the pre-save hook (a new
   * document's password always counts as modified). `None` when validation fails.
   */
  function SaveNewUser(d: UserDraft, id: ObjectId, now: int, hash: string -> string): (r: Option<User>)
    ensures r.Some? <==> ValidDraft(d)
    ensures r.Some? ==>
      && r.value.id == id && r.value.createdAt == now && r.value.updatedAt == now
      && r.value.username == d.username.value && r.value.email == d.email.value
      && r.value.password == hash(d.password.value)
      && r.value.profileImage == d.profileImage
  {
    if ValidDraft(d) then
      Some(PreSave(User(id, d.username.value, d.email.value, d.password.value, d.profileImage, now, now), true, hash))
    else None
  }

  /**
   * Saving a user a second time without touching the password keeps the
   * stored hash: the hook hashes once, not on every save.
   */
  lemma PreSaveHashesOnce(u: User, hash: string -> string)
    ensures PreSave(PreSave(u, true, hash), false, hash) == PreSave(u, true, hash)
    ensures PreSave(PreSave(u, true, hash), false, hash).password == hash(u.password)
  {
  }
}
