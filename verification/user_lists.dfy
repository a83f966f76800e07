/**
 * The list updates the professors and students admin pages share: entries are
 * plain objects identified by their `userId` property; a delete filters them,
 * an update maps over them, and the edit form is an object updated one
 * property at a time.
 */
module UserLists {
  import opened Js

  const UserIdKey := "userId"

  /** `u.userId`. */
  function UserId(u: JsObject): JsValue {
    Get(u, UserIdKey)
  }

  /** `users.filter(u => u.userId !== userId)`. */
  function RemoveUser(users: seq<JsObject>, userId: JsValue): (r: seq<JsObject>)
    ensures |r| <= |users|
    ensures forall u :: u in r <==> u in users && UserId(u) != userId
  {
    if users == [] then []
    else (if UserId(users[0]) != userId then [users[0]] else []) + RemoveUser(users[1..], userId)
  }

  /**
   * Filtering a concatenation filters each part: the kept entries stay in
   * their order, and a single entry is kept or dropped by its id alone.
   */
  lemma {:induction false} RemoveUserAppend(a: seq<JsObject>, b: seq<JsObject>, userId: JsValue)
    ensures RemoveUser(a + b, userId) == RemoveUser(a, userId) + RemoveUser(b, userId)
  {
    if a == [] {
      assert a + b == b;
    } else {
      assert (a + b)[1..] == a[1..] + b;
      RemoveUserAppend(a[1..], b, userId);
    }
  }

  /** Deleting an id no entry carries leaves the list as it was. */
  lemma {:induction false} RemoveAbsentUser(users: seq<JsObject>, userId: JsValue)
    requires forall i :: 0 <= i < |users| ==> UserId(users[i]) != userId
    ensures RemoveUser(users, userId) == users
  {
    if users != [] {
      RemoveAbsentUser(users[1..], userId);
    }
  }

  /** `{ userId, ...form }`: the form's properties, with `userId` unless the form overrides it. */
  function Entry(userId: JsValue, form: JsObject): (e: JsObject)
    ensures UserIdKey !in form ==> UserId(e) == userId
    ensures forall k :: k in form ==> k in e && e[k] == form[k]
    ensures e.Keys == form.Keys + {UserIdKey}
  {
    map[UserIdKey := userId] + form
  }

  /** `users.map(u => u.userId === userId ? entry : u)`. */
  function ReplaceUser(users: seq<JsObject>, userId: JsValue, entry: JsObject): (r: seq<JsObject>)
    ensures |r| == |users|
    ensures forall i :: 0 <= i < |users| ==> r[i] == if UserId(users[i]) == userId then entry else users[i]
  {
    if users == [] then [] else [if UserId(users[0]) == userId then entry else users[0]] + ReplaceUser(users[1..], userId, entry)
  }

  /**
   * Replacing with an entry built for the same id keeps every entry's id, so
   * the list's ids (and the rows' keys) are what they were.
   */
  lemma ReplaceKeepsIds(users: seq<JsObject>, userId: JsValue, form: JsObject)
    requires UserIdKey !in form
    ensures forall i :: 0 <= i < |users| ==> UserId(ReplaceUser(users, userId, Entry(userId, form))[i]) == UserId(users[i])
  {
  }

  /** `{ k1: u.k1, k2: u.k2, ... }`: the edit form filled from a list entry. */
  function FormFrom(u: JsObject, keys: set<string>): (form: JsObject)
    ensures form.Keys == keys
    ensures forall k :: k in keys ==> form[k] == Get(u, k)
  {
    map k | k in keys :: Get(u, k)
  }

  /** One change event from an input of the edit form. */
  datatype InputEvent = InputEvent(name: string, isCheckbox: bool, value: string, checked: bool)

  /** `type === "checkbox" ? checked : value`. */
  function EventValue(e: InputEvent): (v: JsValue)
    ensures e.isCheckbox ==> v == Bool(e.checked)
    ensures !e.isCheckbox ==> v == Str(e.value)
  {
    if e.isCheckbox then Bool(e.checked) else Str(e.value)
  }

  /** `{ ...form, [name]: type === "checkbox" ? checked : value }`. */
  function OnChange(form: JsObject, e: InputEvent): (r: JsObject)
    ensures r.Keys == form.Keys + {e.name}
    ensures r[e.name] == EventValue(e)
    ensures forall k :: k in form && k != e.name ==> r[k] == form[k]
  {
    form[e.name := EventValue(e)]
  }
}
