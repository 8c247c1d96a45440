/**
 * The state App.tsx keeps: the collection, the search text and the two dialogs.
 * Each handler is one atomic update of these fields.
 */
module Catalog {
  import opened Nullable
  import opened Types
  import opened Store

  class App {
    var publications: seq<Publication>
    var searchQuery: string
    var isModalOpen: bool
    var editingPublication: Option<Publication>
    var isConfirmModalOpen: bool
    var deletingPublicationId: Option<string>

    /** The confirmation dialog is never open without a pending id. */
    ghost predicate Valid()
      reads this
    {
      isConfirmModalOpen ==> deletingPublicationId.Some?
    }

    /** Mounting the app: the collection comes from storage or the seed, every dialog is closed. */
    constructor (saved: Option<string>, parse: string -> Option<seq<Publication>>, data: seq<Draft>)
      ensures Valid()
      ensures publications == Load(saved, parse, data)
      ensures searchQuery == "" && !isModalOpen && editingPublication == None
      ensures !isConfirmModalOpen && deletingPublicationId == None
    {
      publications := Load(saved, parse, data);
      searchQuery := "";
      isModalOpen := false;
      editingPublication := None;
      isConfirmModalOpen := false;
      deletingPublicationId := None;
    }

    /** The records the list shows. */
    function Visible(): (r: seq<Publication>)
      reads this
      ensures searchQuery == "" ==> r == publications
      ensures forall p :: p in r ==> p in publications
    {
      FilteredPublications(publications, searchQuery)
    }

    /** The header's `onSearchChange`. */
    method SetSearchQuery(query: string)
      requires Valid()
      modifies this
      ensures Valid()
      ensures searchQuery == query
      ensures publications == old(publications) && isModalOpen == old(isModalOpen)
      ensures editingPublication == old(editingPublication)
      ensures isConfirmModalOpen == old(isConfirmModalOpen)
      ensures deletingPublicationId == old(deletingPublicationId)
    {
      searchQuery := query;
    }

    /** `handleAddNew`: open the add/edit dialog for a new record. */
    method AddNew()
      requires Valid()
      modifies this
      ensures Valid()
      ensures editingPublication == None && isModalOpen
      ensures publications == old(publications) && searchQuery == old(searchQuery)
      ensures isConfirmModalOpen == old(isConfirmModalOpen)
      ensures deletingPublicationId == old(deletingPublicationId)
    {
      editingPublication := None;
      isModalOpen := true;
    }

    /** `handleEdit`: open the add/edit dialog on `pub`. */
    method Edit(pub: Publication)
      requires Valid()
      modifies this
      ensures Valid()
      ensures editingPublication == Some(pub) && isModalOpen
      ensures publications == old(publications) && searchQuery == old(searchQuery)
      ensures isConfirmModalOpen == old(isConfirmModalOpen)
      ensures deletingPublicationId == old(deletingPublicationId)
    {
      editingPublication := Some(pub);
      isModalOpen := true;
    }

    /** `handleDelete`: remember `id` and ask for confirmation. */
    method Delete(id: string)
      requires Valid()
      modifies this
      ensures Valid()
      ensures deletingPublicationId == Some(id) && isConfirmModalOpen
      ensures publications == old(publications) && searchQuery == old(searchQuery)
      ensures isModalOpen == old(isModalOpen) && editingPublication == old(editingPublication)
    {
      deletingPublicationId := Some(id);
      isConfirmModalOpen := true;
    }

    /**
     * `handleConfirmDelete`: with a truthy pending id, drop its records, close
     * the confirmation and clear the id; with none, change nothing at all.
     */
    method ConfirmDelete()
      requires Valid()
      modifies this
      ensures Valid()
      ensures TruthyText(old(deletingPublicationId)) ==>
        && publications == Without(old(publications), old(deletingPublicationId).value)
        && !isConfirmModalOpen && deletingPublicationId == None
      ensures !TruthyText(old(deletingPublicationId)) ==>
        && publications == old(publications) && isConfirmModalOpen == old(isConfirmModalOpen)
        && deletingPublicationId == old(deletingPublicationId)
      ensures searchQuery == old(searchQuery)
      ensures isModalOpen == old(isModalOpen) && editingPublication == old(editingPublication)
    {
      if TruthyText(deletingPublicationId) {
        publications := Without(publications, deletingPublicationId.value);
        isConfirmModalOpen := false;
        deletingPublicationId := None;
      }
    }

    /** The confirmation dialog's `onClose`: it closes, but the pending id stays. */
    method CancelConfirm()
      requires Valid()
      modifies this
      ensures Valid()
      ensures !isConfirmModalOpen
      ensures deletingPublicationId == old(deletingPublicationId)
      ensures publications == old(publications) && searchQuery == old(searchQuery)
      ensures isModalOpen == old(isModalOpen) && editingPublication == old(editingPublication)
    {
      isConfirmModalOpen := false;
    }

    /** `handleCloseModal`: closes the add/edit dialog and keeps the record it was editing. */
    method CloseModal()
      requires Valid()
      modifies this
      ensures Valid()
      ensures !isModalOpen
      ensures editingPublication == old(editingPublication)
      ensures publications == old(publications) && searchQuery == old(searchQuery)
      ensures isConfirmModalOpen == old(isConfirmModalOpen)
      ensures deletingPublicationId == old(deletingPublicationId)
    {
      isModalOpen := false;
    }

    /** `handleSave`: store the request, close the add/edit dialog, forget the edited record. */
    method Save(req: SaveRequest, now: int)
      requires Valid()
      modifies this
      ensures Valid()
      ensures publications == Saved(old(publications), req, now)
      ensures !isModalOpen && editingPublication == None
      ensures searchQuery == old(searchQuery)
      ensures isConfirmModalOpen == old(isConfirmModalOpen)
      ensures deletingPublicationId == old(deletingPublicationId)
    {
      publications := Saved(publications, req, now);
      isModalOpen := false;
      editingPublication := None;
    }
  }

  /**
   * Deleting with confirmation: cancelling keeps the record, confirming
   * removes every record with that id.
   */
  method DeleteScenario(pubs: seq<Publication>, x: Publication)
    requires x in pubs && x.id != ""
  {
    var stored := Some("[...]");
    var app := new App(stored, (s: string) => Some(pubs), []);
    assert app.publications == pubs;
    app.Delete(x.id);
    app.CancelConfirm();
    assert x in app.publications && app.deletingPublicationId == Some(x.id);
    app.Delete(x.id);
    app.ConfirmDelete();
    assert x.id !in Ids(app.publications) && !app.isConfirmModalOpen;
  }
}
