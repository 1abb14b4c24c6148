/** The species edit controller: the kingdom enumeration, the species row and its six
    editable columns, what the store does with an update, and the dialog state machine. */
module EditSpecies {
  import opened Wrappers
  import opened EditFlow

  /** The closed taxonomy of the kingdom selector. */
  datatype Kingdom = Animalia | Plantae | Fungi | Protista | Archaea | Bacteria

  function KingdomName(k: Kingdom): string
  {
    match k
    case Animalia => "Animalia"
    case Plantae => "Plantae"
    case Fungi => "Fungi"
    case Protista => "Protista"
    case Archaea => "Archaea"
    case Bacteria => "Bacteria"
  }

  /** `kingdoms.options`, in the order the selector lists them. */
  const KingdomOptions: seq<Kingdom> := [Animalia, Plantae, Fungi, Protista, Archaea, Bacteria]

  /** `kingdoms.parse(value)`: the kingdom whose name is exactly `value`; `None` stands for
      the validation error the enumeration throws on any other string. */
  function ParseKingdom(value: string): (r: Option<Kingdom>)
    ensures r.Some? ==> KingdomName(r.value) == value
    ensures forall k :: KingdomName(k) == value ==> r == Some(k)
  {
    if value == "Animalia" then Some(Animalia)
    else if value == "Plantae" then Some(Plantae)
    else if value == "Fungi" then Some(Fungi)
    else if value == "Protista" then Some(Protista)
    else if value == "Archaea" then Some(Archaea)
    else if value == "Bacteria" then Some(Bacteria)
    else None
  }

  /** Every option the selector offers is accepted by the parse and is offered once. */
  lemma KingdomOptionsAccepted()
    ensures |KingdomOptions| == 6
    ensures forall k: Kingdom :: k in KingdomOptions
    ensures forall i, j :: 0 <= i < j < |KingdomOptions| ==> KingdomOptions[i] != KingdomOptions[j]
    ensures forall i :: 0 <= i < |KingdomOptions| ==>
              ParseKingdom(KingdomName(KingdomOptions[i])) == Some(KingdomOptions[i])
  {
    forall k: Kingdom ensures k in KingdomOptions {
      match k
      case Animalia => assert KingdomOptions[0] == k;
      case Plantae => assert KingdomOptions[1] == k;
      case Fungi => assert KingdomOptions[2] == k;
      case Protista => assert KingdomOptions[3] == k;
      case Archaea => assert KingdomOptions[4] == k;
      case Bacteria => assert KingdomOptions[5] == k;
    }
  }

  type SpeciesId = string

  /** A row of the `species` table. The database schema is not part of this model, so
      every editable column, `kingdom` included, is taken to be nullable. */
  datatype SpeciesRow = SpeciesRow(
    id: SpeciesId,
    author: UserId,
    scientificName: Option<string>,
    commonName: Option<string>,
    kingdom: Option<Kingdom>,
    totalPopulation: Option<int>,
    image: Option<string>,
    description: Option<string>)

  /** The six editable fields: the submitted form data and, field for field, the payload
      of the update. A form field the user never changed holds `undefined`: the form has
      no default values, and the inputs' `defaultValue` props fill only the page. */
  datatype SpeciesFields = SpeciesFields(
    scientificName: Nullish<string>,
    commonName: Nullish<string>,
    kingdom: Nullish<Kingdom>,
    totalPopulation: Nullish<int>,
    image: Nullish<string>,
    description: Nullish<string>)

  /** The form data of a dialog saved without touching any field. */
  const UntouchedForm: SpeciesFields :=
    SpeciesFields(Undefined, Undefined, Undefined, Undefined, Undefined, Undefined)

  /** A row after an update with payload `f`: each editable column is written by its
      payload field (a value is stored, `null` clears it, `undefined` keeps it), while
      the identifier and the author are never written. */
  function Patched(row: SpeciesRow, f: SpeciesFields): (r: SpeciesRow)
    ensures r.id == row.id && r.author == row.author
    ensures r.scientificName == Written(row.scientificName, f.scientificName)
    ensures r.commonName == Written(row.commonName, f.commonName)
    ensures r.kingdom == Written(row.kingdom, f.kingdom)
    ensures r.totalPopulation == Written(row.totalPopulation, f.totalPopulation)
    ensures r.image == Written(row.image, f.image)
    ensures r.description == Written(row.description, f.description)
  {
    row.(scientificName := Written(row.scientificName, f.scientificName),
         commonName := Written(row.commonName, f.commonName),
         kingdom := Written(row.kingdom, f.kingdom),
         totalPopulation := Written(row.totalPopulation, f.totalPopulation),
         image := Written(row.image, f.image),
         description := Written(row.description, f.description))
  }

  /** Saving an untouched dialog writes nothing. */
  lemma UntouchedFormWritesNothing(row: SpeciesRow)
    ensures Patched(row, UntouchedForm) == row
  {
  }

  /** Changing only the common name writes only the common name; every other column,
      the kingdom included, keeps its value. */
  lemma OnlyCommonNameWritten(row: SpeciesRow, name: string)
    ensures Patched(row, UntouchedForm.(commonName := Val(name))) == row.(commonName := Some(name))
  {
  }

  lemma PatchedIdempotent(row: SpeciesRow, f: SpeciesFields)
    ensures Patched(Patched(row, f), f) == Patched(row, f)
  {
  }

  /** One `update(fields).eq("id", matchId)` call on the `species` table, as issued by
      the signed-in `caller` (the request carries the caller's session). */
  datatype SpeciesUpdate = SpeciesUpdate(matchId: SpeciesId, fields: SpeciesFields, caller: UserId)

  /** The `species` table, by row position or key. */
  type SpeciesTable = map<SpeciesId, SpeciesRow>

  /** What the store does with an update: every row whose `id` equals `matchId` gets the
      payload; every other row is untouched; no row changes its `id` or `author`. */
  function ApplyUpdate(t: SpeciesTable, u: SpeciesUpdate): (r: SpeciesTable)
    ensures r.Keys == t.Keys
    ensures forall k :: k in t ==> r[k].id == t[k].id && r[k].author == t[k].author
    ensures forall k :: k in t && t[k].id != u.matchId ==> r[k] == t[k]
    ensures forall k :: k in t && t[k].id == u.matchId ==> r[k] == Patched(t[k], u.fields)
  {
    map k | k in t :: if t[k].id == u.matchId then Patched(t[k], u.fields) else t[k]
  }

  /** Issuing the same update twice leaves the table as issuing it once. */
  lemma ApplyUpdateIdempotent(t: SpeciesTable, u: SpeciesUpdate)
    ensures ApplyUpdate(ApplyUpdate(t, u), u) == ApplyUpdate(t, u)
  {
    var once := ApplyUpdate(t, u);
    var twice := ApplyUpdate(once, u);
    forall k | k in t ensures twice[k] == once[k] {
      if t[k].id == u.matchId {
        PatchedIdempotent(t[k], u.fields);
      }
    }
  }

  /** The table after a sequence of updates, applied in order. */
  function Replay(t: SpeciesTable, log: seq<SpeciesUpdate>): SpeciesTable
    decreases |log|
  {
    if log == [] then t else Replay(ApplyUpdate(t, log[0]), log[1..])
  }

  /** No sequence of updates changes which rows exist, their identifiers or their authors. */
  lemma {:induction false} ReplayKeepsOwners(t: SpeciesTable, log: seq<SpeciesUpdate>)
    ensures Replay(t, log).Keys == t.Keys
    ensures forall k :: k in t ==>
              Replay(t, log)[k].id == t[k].id && Replay(t, log)[k].author == t[k].author
    decreases |log|
  {
    if log != [] {
      ReplayKeepsOwners(ApplyUpdate(t, log[0]), log[1..]);
    }
  }

  /** A log of updates all addressed to one identifier touches no row with another one. */
  lemma {:induction false} ReplayTouchesOnlyMatch(t: SpeciesTable, log: seq<SpeciesUpdate>, id: SpeciesId)
    requires forall i :: 0 <= i < |log| ==> log[i].matchId == id
    ensures forall k :: k in t && t[k].id != id ==> k in Replay(t, log) && Replay(t, log)[k] == t[k]
    decreases |log|
  {
    if log != [] {
      var t' := ApplyUpdate(t, log[0]);
      ReplayTouchesOnlyMatch(t', log[1..], id);
    }
  }

  /** The edit controller of one species card: whether the dialog is open, the
      error it shows, and the calls it has made to the store and the router. */
  class SpeciesEditor {
    const thisSpecies: SpeciesRow
    var openEdit: bool
    var editError: string
    /** Every update call this controller issued, oldest first. */
    var updates: seq<SpeciesUpdate>
    /** How many times this controller called `router.refresh()`. */
    var refreshes: nat

    /** The error is empty or the wrong-account text; every update is addressed to this
        record, was issued by its author and was followed by one refresh. */
    ghost predicate Valid()
      reads this
    {
      && (editError == "" || editError == WrongAccountMessage)
      && |updates| == refreshes
      && forall i :: 0 <= i < |updates| ==>
           updates[i].matchId == thisSpecies.id && updates[i].caller == thisSpecies.author
    }

    constructor (species: SpeciesRow)
      ensures Valid()
      ensures thisSpecies == species
      ensures !openEdit && editError == "" && updates == [] && refreshes == 0
    {
      thisSpecies := species;
      openEdit := false;
      editError := "";
      updates := [];
      refreshes := 0;
    }

    /** The Edit button: opens the dialog and keeps any error shown. */
    method HandleClickToOpenEdit()
      requires Valid()
      modifies this`openEdit
      ensures Valid()
      ensures openEdit
    {
      openEdit := true;
    }

    /** Cancel, and the close after a successful save: closes the dialog and clears the error. */
    method HandleToCloseEdit()
      modifies this`openEdit, this`editError
      ensures old(Valid()) ==> Valid()
      ensures !openEdit && editError == ""
    {
      openEdit := false;
      editError := "";
    }

    /** The submit handler, given the session lookup's result and the form data. */
    method EditInfo(session: Option<UserId>, input: SpeciesFields) returns (outcome: SubmitOutcome)
      requires Valid()
      modifies this
      ensures Valid()
      ensures session.None? ==> outcome == Redirected && unchanged(this)
      ensures session.Some? && session.value == thisSpecies.author ==>
                && outcome == Updated
                && updates == old(updates) + [SpeciesUpdate(thisSpecies.id, input, session.value)]
                && !openEdit && editError == ""
                && refreshes == old(refreshes) + 1
      ensures session.Some? && session.value != thisSpecies.author ==>
                && outcome == Denied
                && updates == old(updates) && refreshes == old(refreshes)
                && openEdit == old(openEdit) && editError == WrongAccountMessage
    {
      if session.None? {
        // `redirect` throws, so nothing after it runs
        return Redirected;
      }
      var user := session.value;
      if thisSpecies.author == user {
        updates := updates + [SpeciesUpdate(thisSpecies.id, input, user)];
        HandleToCloseEdit();
        refreshes := refreshes + 1;
        outcome := Updated;
      } else {
        editError := WrongAccountMessage;
        outcome := Denied;
      }
    }
  }
}
