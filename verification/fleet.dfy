/** The fleet manifest screen: adding a ship to the organisation catalogue,
    editing it and deleting it, all keyed by ship name, and the colour badge
    each service status gets. */
module Fleet {
  import opened Common
  import opened Text
  import opened Types
  import GeminiService

  /** The label a status carries in the catalogue and in the form's select. */
  function StatusName(s: ShipStatus): string {
    match s
    case InService => "In Service"
    case UnderRepair => "Under Repair"
    case OnMission => "On Mission"
  }

  const GreenBadge: string := "text-green-400 border-green-400"
  const YellowBadge: string := "text-yellow-400 border-yellow-400"
  const RedBadge: string := "text-red-400 border-red-400"
  const GreyBadge: string := "text-gray-400 border-gray-400"

  /** The badge classes for a status label: green in service, yellow on a
      mission, red under repair, grey for any label that is none of them. */
  function StatusColor(tag: string): (r: string)
    ensures r == GreyBadge <==> forall s :: tag != StatusName(s)
    ensures tag == StatusName(InService) ==> r == GreenBadge
    ensures tag == StatusName(OnMission) ==> r == YellowBadge
    ensures tag == StatusName(UnderRepair) ==> r == RedBadge
  {
    BadgesDiffer();
    if tag == "In Service" then assert tag == StatusName(InService); GreenBadge
    else if tag == "On Mission" then assert tag == StatusName(OnMission); YellowBadge
    else if tag == "Under Repair" then assert tag == StatusName(UnderRepair); RedBadge
    else GreyBadge
  }

  /** The four badges are different strings (their lengths already differ). */
  lemma BadgesDiffer()
    ensures |GreenBadge| == 31 && |YellowBadge| == 33 && |RedBadge| == 27 && |GreyBadge| == 29
  {
  }

  /** Every status gets a badge of its own, none of them grey. */
  lemma StatusColorsDistinct(a: ShipStatus, b: ShipStatus)
    ensures StatusColor(StatusName(a)) != GreyBadge
    ensures StatusColor(StatusName(a)) == StatusColor(StatusName(b)) <==> a == b
  {
  }

  /** The add-ship form. */
  datatype ShipForm = ShipForm(name: string, model: string, role: ShipRole, status: ShipStatus, imageUrl: string)

  /** The form as it opens and as it is reset after a ship is added. */
  const BlankForm: ShipForm := ShipForm("", "", Fighter, InService, "")

  /** The screen state: the catalogue, the add form and its modal, the ship
      whose edit modal is open with the copy being edited, and the ship whose
      delete confirmation is open. */
  datatype FleetScreen = FleetScreen(
    fleet: seq<Ship>,
    form: ShipForm,
    isSubmitting: bool,
    isAddModalOpen: bool,
    shipToEdit: Option<Ship>,
    editFormData: Option<Ship>,
    shipToDelete: Option<Ship>)

  /** The placeholder picture for a model: its whitespace turned into dashes. */
  function PlaceholderImage(model: string): string {
    "https://picsum.photos/seed/" + ReplaceWhitespace(model, '-') + "/400/200"
  }

  /** The picture a new ship gets: the one typed in, or a placeholder derived
      from the model when none was typed. */
  function ImageFor(form: ShipForm): (url: string)
    ensures form.imageUrl != "" ==> url == form.imageUrl
    ensures form.imageUrl == "" ==> url == PlaceholderImage(form.model)
  {
    if form.imageUrl != "" then form.imageUrl else PlaceholderImage(form.model)
  }

  /** The placeholder's seed segment keeps the model's length and carries no
      whitespace, so it stays a single path segment. */
  lemma PlaceholderSeedHasNoWhitespace(model: string)
    ensures var seed := ReplaceWhitespace(model, '-');
      |seed| == |model| && forall i :: 0 <= i < |seed| ==> !IsWhitespace(seed[i])
  {
  }

  /** Submitting the add form. `description` is the generator's answer for
      the model and role. A blank name or model, or a submission already in
      flight, changes nothing; otherwise the new ship goes to the front of the
      catalogue, the form is reset and the modal closes. */
  function AddShip(screen: FleetScreen, description: Outcome<string>): (r: FleetScreen)
    ensures screen.form.name == "" || screen.form.model == "" || screen.isSubmitting ==> r == screen
    ensures !(screen.form.name == "" || screen.form.model == "" || screen.isSubmitting) ==>
      && |r.fleet| == |screen.fleet| + 1
      && r.fleet[1..] == screen.fleet
      && r.fleet[0].name == screen.form.name && r.fleet[0].model == screen.form.model
      && r.fleet[0].role == screen.form.role && r.fleet[0].status == screen.form.status
      && r.fleet[0].imageUrl == ImageFor(screen.form)
      && r.fleet[0].description == GeminiService.ShipDescription(description)
      && r.form == BlankForm && !r.isSubmitting && !r.isAddModalOpen
      && r.shipToEdit == screen.shipToEdit && r.editFormData == screen.editFormData
      && r.shipToDelete == screen.shipToDelete
  {
    var f := screen.form;
    if f.name == "" || f.model == "" || screen.isSubmitting then screen
    else
      var ship := Ship(f.name, f.model, f.role, f.status, ImageFor(f), GeminiService.ShipDescription(description));
      screen.(fleet := [ship] + screen.fleet, form := BlankForm, isSubmitting := false, isAddModalOpen := false)
  }

  /** Saving the edit form: every ship whose name is that of the ship being
      edited is replaced by the edited copy. Nothing happens unless both the
      ship and the edited copy are present. */
  function UpdateShip(fleet: seq<Ship>, shipToEdit: Option<Ship>, edited: Option<Ship>): (r: seq<Ship>)
    ensures shipToEdit.None? || edited.None? ==> r == fleet
    ensures |r| == |fleet|
    ensures shipToEdit.Some? && edited.Some? ==>
      forall i :: 0 <= i < |fleet| ==>
        (fleet[i].name == shipToEdit.value.name ==> r[i] == edited.value)
        && (fleet[i].name != shipToEdit.value.name ==> r[i] == fleet[i])
  {
    if shipToEdit.None? || edited.None? then fleet
    else
      seq(|fleet|, i requires 0 <= i < |fleet| =>
            if fleet[i].name == shipToEdit.value.name then edited.value else fleet[i])
  }

  /** Confirming a deletion: every ship with the name of the ship to delete
      leaves the catalogue, the others keep their order. */
  function DeleteShip(fleet: seq<Ship>, shipToDelete: Option<Ship>): (r: seq<Ship>)
    ensures shipToDelete.None? ==> r == fleet
    ensures shipToDelete.Some? ==> forall s :: s in r <==> s in fleet && s.name != shipToDelete.value.name
    ensures |r| <= |fleet|
    decreases |fleet|
  {
    if shipToDelete.None? || |fleet| == 0 then fleet
    else
      (if fleet[0].name == shipToDelete.value.name then [] else [fleet[0]])
      + DeleteShip(fleet[1..], shipToDelete)
  }

  /** Deletion filters piecewise, so the surviving ships keep their order and
      multiplicity: deleting from a joined catalogue deletes from each part. */
  lemma DeleteShipAppend(a: seq<Ship>, b: seq<Ship>, shipToDelete: Option<Ship>)
    ensures DeleteShip(a + b, shipToDelete) == DeleteShip(a, shipToDelete) + DeleteShip(b, shipToDelete)
  {
    if shipToDelete.Some? {
      DeleteNamedAppend(a, b, shipToDelete.value);
    }
  }

  lemma {:induction false} DeleteNamedAppend(a: seq<Ship>, b: seq<Ship>, ship: Ship)
    ensures DeleteShip(a + b, Some(ship)) == DeleteShip(a, Some(ship)) + DeleteShip(b, Some(ship))
    decreases |a|
  {
    if |a| > 0 {
      assert (a + b)[1..] == a[1..] + b;
      DeleteNamedAppend(a[1..], b, ship);
    } else {
      assert a + b == b;
    }
  }

  /** Deletion keeps each ship with another name exactly as often as the
      catalogue holds it. */
  lemma {:induction false} DeleteShipCounts(fleet: seq<Ship>, ship: Ship)
    ensures forall s ::
      multiset(DeleteShip(fleet, Some(ship)))[s] == if s.name != ship.name then multiset(fleet)[s] else 0
    decreases |fleet|
  {
    if |fleet| > 0 {
      var head := if fleet[0].name == ship.name then [] else [fleet[0]];
      assert fleet == [fleet[0]] + fleet[1..];
      assert DeleteShip(fleet, Some(ship)) == head + DeleteShip(fleet[1..], Some(ship));
      DeleteShipCounts(fleet[1..], ship);
    }
  }

  /** Saving the edit modal: with no ship or no edited copy nothing happens;
      otherwise the catalogue gets the edit and the edit modal closes. The
      effect that follows the ship being edited then drops the edited copy,
      so the save ends with both cleared; the rest of the screen stays. */
  function SaveEdit(screen: FleetScreen): (r: FleetScreen)
    ensures screen.shipToEdit.None? || screen.editFormData.None? ==> r == screen
    ensures screen.shipToEdit.Some? && screen.editFormData.Some? ==>
      && r.fleet == UpdateShip(screen.fleet, screen.shipToEdit, screen.editFormData)
      && r.shipToEdit.None? && r.editFormData.None?
      && r.form == screen.form && r.isSubmitting == screen.isSubmitting
      && r.isAddModalOpen == screen.isAddModalOpen
      && r.shipToDelete == screen.shipToDelete
  {
    if screen.shipToEdit.None? || screen.editFormData.None? then screen
    else
      screen.(fleet := UpdateShip(screen.fleet, screen.shipToEdit, screen.editFormData),
              shipToEdit := None, editFormData := None)
  }

  /** Confirming the delete dialog: with no ship picked nothing happens;
      otherwise the ship's namesakes leave the catalogue and the dialog
      closes, leaving the rest of the screen alone. */
  function ConfirmDelete(screen: FleetScreen): (r: FleetScreen)
    ensures screen.shipToDelete.None? ==> r == screen
    ensures screen.shipToDelete.Some? ==>
      && r.fleet == DeleteShip(screen.fleet, screen.shipToDelete)
      && r.shipToDelete.None?
      && r.form == screen.form && r.isSubmitting == screen.isSubmitting
      && r.isAddModalOpen == screen.isAddModalOpen
      && r.shipToEdit == screen.shipToEdit && r.editFormData == screen.editFormData
  {
    if screen.shipToDelete.None? then screen
    else screen.(fleet := DeleteShip(screen.fleet, screen.shipToDelete), shipToDelete := None)
  }

  /** Each modal closes on confirmation, so confirming it a second time
      changes nothing. */
  lemma ConfirmationsCloseModals(screen: FleetScreen)
    ensures SaveEdit(SaveEdit(screen)) == SaveEdit(screen)
    ensures ConfirmDelete(ConfirmDelete(screen)) == ConfirmDelete(screen)
  {
  }

  /** Deleting keeps every ship with another name, in order. */
  lemma {:induction false} DeleteKeepsOthers(fleet: seq<Ship>, name: string, ship: Ship)
    requires ship.name == name
    requires forall i :: 0 <= i < |fleet| ==> fleet[i].name != name
    ensures DeleteShip(fleet, Some(ship)) == fleet
    decreases |fleet|
  {
    if |fleet| > 0 {
      DeleteKeepsOthers(fleet[1..], name, ship);
      assert fleet == [fleet[0]] + fleet[1..];
    }
  }

  /** Adding a ship under a name the catalogue does not hold and then
      deleting it gives back the catalogue as it was. */
  lemma DeleteUndoesAdd(screen: FleetScreen, description: Outcome<string>)
    requires screen.form.name != "" && screen.form.model != "" && !screen.isSubmitting
    requires forall i :: 0 <= i < |screen.fleet| ==> screen.fleet[i].name != screen.form.name
    ensures var added := AddShip(screen, description).fleet;
      DeleteShip(added, Some(added[0])) == screen.fleet
  {
    var added := AddShip(screen, description).fleet;
    assert added[1..] == screen.fleet;
    DeleteKeepsOthers(screen.fleet, screen.form.name, added[0]);
  }

  /** Deletion goes by name, so ships that share the name of the one picked
      all disappear with it. */
  lemma DeleteRemovesEveryNamesake(fleet: seq<Ship>, ship: Ship)
    ensures forall i :: 0 <= i < |DeleteShip(fleet, Some(ship))| ==> DeleteShip(fleet, Some(ship))[i].name != ship.name
  {
    var r := DeleteShip(fleet, Some(ship));
    forall i | 0 <= i < |r|
      ensures r[i].name != ship.name
    {
      assert r[i] in r;
    }
  }

  /** Deleting twice is deleting once. */
  lemma {:induction false} DeleteIdempotent(fleet: seq<Ship>, ship: Option<Ship>)
    ensures DeleteShip(DeleteShip(fleet, ship), ship) == DeleteShip(fleet, ship)
    decreases |fleet|
  {
    if ship.Some? && |fleet| > 0 {
      DeleteIdempotent(fleet[1..], ship);
      var rest := DeleteShip(fleet[1..], ship);
      if fleet[0].name != ship.value.name {
        var once := [fleet[0]] + rest;
        assert once[0] == fleet[0] && once[1..] == rest;
      } else {
        assert DeleteShip(fleet, ship) == rest;
      }
    }
  }

  /** Saving an edit that keeps the ship's name twice is saving it once. */
  lemma UpdateIdempotent(fleet: seq<Ship>, shipToEdit: Ship, edited: Ship)
    requires edited.name == shipToEdit.name
    ensures var once := UpdateShip(fleet, Some(shipToEdit), Some(edited));
      UpdateShip(once, Some(shipToEdit), Some(edited)) == once
  {
  }

  /** After saving an edit, the catalogue holds the edited copy wherever a
      ship of the old name was, and no ship of that name is left unless the
      edit kept the name. */
  lemma UpdateReplacesEveryNamesake(fleet: seq<Ship>, shipToEdit: Ship, edited: Ship)
    requires shipToEdit in fleet
    ensures var r := UpdateShip(fleet, Some(shipToEdit), Some(edited));
      && edited in r
      && (edited.name != shipToEdit.name ==> forall i :: 0 <= i < |r| ==> r[i].name != shipToEdit.name)
  {
    var r := UpdateShip(fleet, Some(shipToEdit), Some(edited));
    var k :| 0 <= k < |fleet| && fleet[k] == shipToEdit;
    assert r[k] == edited;
  }
}
