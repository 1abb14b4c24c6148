/** The profile edit controller: the two `profileSchema` normalisers, the profile row and
    its two editable columns, what the store does with an update, and the dialog state
    machine with its extra required-field error. */
module EditProfile {
  import opened Wrappers
  import opened JsText
  import opened EditFlow

  /** The `display_name` transform `val?.trim()`: a string is trimmed; `null` becomes
      `undefined`, so the result is never `null`. */
  function DisplayNameTransform(val: Option<string>): (r: Nullish<string>)
    ensures val.None? <==> r.Undefined?
    ensures !r.Null?
    ensures val.Some? ==> r == Val(Trim(val.value))
    ensures r.Val? ==> IsTrimmed(r.value) && (r.value == "" <==> AllWhitespace(val.value))
  {
    match val
    case None => Undefined
    case Some(s) => Val(Trim(s))
  }

  /** A trimmed display name is a fixed point of the transform. */
  lemma DisplayNameIdempotent(val: Option<string>)
    ensures DisplayNameTransform(val).Val? ==>
              DisplayNameTransform(Some(DisplayNameTransform(val).value)) == DisplayNameTransform(val)
  {
    if val.Some? {
      TrimIdempotent(val.value);
    }
  }

  /** A trimmed display name surrounded by any whitespace normalises to itself. */
  lemma DisplayNameOfPadded(a: string, m: string, b: string)
    requires AllWhitespace(a) && AllWhitespace(b) && IsTrimmed(m)
    ensures DisplayNameTransform(Some(a + m + b)) == Val(m)
  {
    TrimPadded(a, m, b);
  }

  /** The `biography` transform `val?.trim() === "" ? null : val?.trim()`: a blank or
      whitespace-only string becomes `null`, any other string its trimmed, non-empty form,
      and `null` becomes `undefined`. */
  function BiographyTransform(val: Option<string>): (r: Nullish<string>)
    ensures val.None? ==> r == Undefined
    ensures val.Some? && AllWhitespace(val.value) ==> r == Null
    ensures val.Some? && !AllWhitespace(val.value) ==>
              r == Val(Trim(val.value)) && r.value != "" && IsTrimmed(r.value)
  {
    match val
    case None => Undefined
    case Some(s) => if Trim(s) == "" then Null else Val(Trim(s))
  }

  /** Applying the biography transform to its own text result gives that result again;
      the general form, any string padded by whitespace, is `BiographyOfPadded`. */
  lemma BiographyIdempotentOnText(val: Option<string>)
    ensures BiographyTransform(val).Val? ==>
              BiographyTransform(Some(BiographyTransform(val).value)) == BiographyTransform(val)
  {
    if val.Some? {
      TrimIdempotent(val.value);
    }
  }

  /** A non-empty trimmed biography surrounded by any whitespace normalises to itself. */
  lemma BiographyOfPadded(a: string, m: string, b: string)
    requires AllWhitespace(a) && AllWhitespace(b) && IsTrimmed(m) && m != ""
    ensures BiographyTransform(Some(a + m + b)) == Val(m)
  {
    TrimPadded(a, m, b);
  }

  /** A row of the `profiles` table; its identifier is its owner's user identifier. */
  datatype ProfileRow = ProfileRow(
    id: UserId,
    email: string,
    displayName: Option<string>,
    biography: Option<string>)

  /** The form data after `profileSchema`'s transforms and, field for field, the
      payload of the update. */
  datatype ProfileFields = ProfileFields(displayName: Nullish<string>, biography: Nullish<string>)

  /** The submit handler's required-field check `input.display_name != ""`. JavaScript's
      loose `!=` finds neither `undefined` nor `null` equal to "". */
  predicate HasDisplayName(f: ProfileFields)
    ensures !HasDisplayName(f) <==> f.displayName == Val("")
  {
    match f.displayName
    case Undefined => true
    case Null => true
    case Val(s) => s != ""
  }

  /** `profileSchema` applied to the raw form values. Its display name is never `null`, its
      biography never the empty string, and the required-field check on its output fails
      exactly when the entered display name is blank or whitespace only. */
  function ParseProfileForm(displayName: Option<string>, biography: Option<string>): (r: ProfileFields)
    ensures !r.displayName.Null?
    ensures r.biography != Val("")
    ensures !HasDisplayName(r) <==> displayName.Some? && AllWhitespace(displayName.value)
  {
    ProfileFields(DisplayNameTransform(displayName), BiographyTransform(biography))
  }

  /** A row after an update with payload `f`: each payload field that is present or
      `null` is written, an `undefined` one is left as it was, and `id` and `email`
      are never written. */
  function Patched(row: ProfileRow, f: ProfileFields): (r: ProfileRow)
    ensures r.id == row.id && r.email == row.email
    ensures f.displayName.Val? ==> r.displayName == Some(f.displayName.value)
    ensures f.displayName.Null? ==> r.displayName.None?
    ensures f.displayName.Undefined? ==> r.displayName == row.displayName
    ensures f.biography.Val? ==> r.biography == Some(f.biography.value)
    ensures f.biography.Null? ==> r.biography.None?
    ensures f.biography.Undefined? ==> r.biography == row.biography
  {
    row.(displayName := Written(row.displayName, f.displayName),
         biography := Written(row.biography, f.biography))
  }

  /** One `update(fields).eq("id", matchId)` call on the `profiles` table, as issued by
      the signed-in `caller`. */
  datatype ProfileUpdate = ProfileUpdate(matchId: UserId, fields: ProfileFields, caller: UserId)

  type ProfileTable = map<UserId, ProfileRow>

  /** What the store does with an update: rows whose `id` equals `matchId` get the payload,
      the others are untouched, and no row changes its `id` or `email`. */
  function ApplyUpdate(t: ProfileTable, u: ProfileUpdate): (r: ProfileTable)
    ensures r.Keys == t.Keys
    ensures forall k :: k in t ==> r[k].id == t[k].id && r[k].email == t[k].email
    ensures forall k :: k in t && t[k].id != u.matchId ==> r[k] == t[k]
    ensures forall k :: k in t && t[k].id == u.matchId ==> r[k] == Patched(t[k], u.fields)
  {
    map k | k in t :: if t[k].id == u.matchId then Patched(t[k], u.fields) else t[k]
  }

  /** An update built by the schema never clears the display name of the row it targets,
      and writes a non-empty one whenever the required-field check passes on a present name. */
  lemma SchemaUpdateKeepsDisplayName(row: ProfileRow, displayName: Option<string>, biography: Option<string>)
    requires row.displayName.Some?
    ensures Patched(row, ParseProfileForm(displayName, biography)).displayName.Some?
    ensures displayName.Some? && HasDisplayName(ParseProfileForm(displayName, biography)) ==>
              Patched(row, ParseProfileForm(displayName, biography)).displayName.value != ""
  {
  }

  /** The edit controller of one profile card. */
  class ProfileEditor {
    const thisProfile: ProfileRow
    var openEdit: bool
    /** Shown when the caller is not the profile's owner. */
    var editError: string
    /** Shown when the display name is left empty. */
    var inputError: string
    /** Every update call this controller issued, oldest first. */
    var updates: seq<ProfileUpdate>
    /** How many times this controller called `router.refresh()`. */
    var refreshes: nat

    /** Both errors are empty or their fixed texts; every update is addressed to this
        profile, was issued by its owner with a display name that passed the check, and
        was followed by one refresh. */
    ghost predicate Valid()
      reads this
    {
      && (editError == "" || editError == WrongAccountMessage)
      && (inputError == "" || inputError == RequiredFieldsMessage)
      && |updates| == refreshes
      && forall i :: 0 <= i < |updates| ==>
           && updates[i].matchId == thisProfile.id
           && updates[i].caller == thisProfile.id
           && HasDisplayName(updates[i].fields)
    }

    constructor (profile: ProfileRow)
      ensures Valid()
      ensures thisProfile == profile
      ensures !openEdit && editError == "" && inputError == "" && updates == [] && refreshes == 0
    {
      thisProfile := profile;
      openEdit := false;
      editError := "";
      inputError := "";
      updates := [];
      refreshes := 0;
    }

    /** The Edit button: opens the dialog and keeps both errors. */
    method HandleClickToOpenEdit()
      requires Valid()
      modifies this`openEdit
      ensures Valid()
      ensures openEdit
    {
      openEdit := true;
    }

    /** Cancel: closes the dialog and clears the ownership error, but not the input error. */
    method HandleToCloseEdit()
      modifies this`openEdit, this`editError
      ensures old(Valid()) ==> Valid()
      ensures !openEdit && editError == ""
    {
      openEdit := false;
      editError := "";
    }

    /** The submit handler: the session check, then the ownership check, and only then
        the required-field check. */
    method EditInfo(session: Option<UserId>, input: ProfileFields) returns (outcome: SubmitOutcome)
      requires Valid()
      modifies this
      ensures Valid()
      ensures session.None? ==> outcome == Redirected && unchanged(this)
      ensures session.Some? && session.value == thisProfile.id && HasDisplayName(input) ==>
                && outcome == Updated
                && updates == old(updates) + [ProfileUpdate(thisProfile.id, input, session.value)]
                && !openEdit && editError == "" && inputError == ""
                && refreshes == old(refreshes) + 1
      ensures session.Some? && session.value == thisProfile.id && !HasDisplayName(input) ==>
                && outcome == Invalid
                && updates == old(updates) && refreshes == old(refreshes)
                && openEdit == old(openEdit) && editError == old(editError)
                && inputError == RequiredFieldsMessage
      ensures session.Some? && session.value != thisProfile.id ==>
                && outcome == Denied
                && updates == old(updates) && refreshes == old(refreshes)
                && openEdit == old(openEdit) && inputError == old(inputError)
                && editError == WrongAccountMessage
    {
      if session.None? {
        // `redirect` throws, so nothing after it runs
        return Redirected;
      }
      var user := session.value;
      if thisProfile.id == user {
        if HasDisplayName(input) {
          updates := updates + [ProfileUpdate(thisProfile.id, input, user)];
          HandleToCloseEdit();
          inputError := "";
          refreshes := refreshes + 1;
          outcome := Updated;
        } else {
          inputError := RequiredFieldsMessage;
          outcome := Invalid;
        }
      } else {
        editError := WrongAccountMessage;
        outcome := Denied;
      }
    }
  }
}
