/**
  The admin reports dashboard: the report list, kept newest first, and the state of the
  delete-confirmation dialog (`deleteDialogOpen`, `reportToDelete`).
*/
module ReportsDashboard {
  import opened Wrappers
  import opened ReportDates
  import opened NewestFirstSort

  /** The dashboard component's state. */
  class Dashboard {
    var reports: seq<Report>
    var loading: bool
    var deleteDialogOpen: bool
    var reportToDelete: Option<string>

    /** The component mounts loading, with no reports, the dialog closed and nothing pending. */
    constructor ()
      ensures reports == [] && loading && !deleteDialogOpen && reportToDelete == None
      ensures Valid()
    {
      reports := [];
      loading := true;
      deleteDialogOpen := false;
      reportToDelete := None;
    }

    /** The list the dashboard keeps is always newest first. */
    predicate Valid()
      reads this
    {
      NewestFirst(reports)
    }

    /** A delete is pending when the pending id is truthy: present and not the empty string. */
    predicate HasPending()
      reads this
    {
      reportToDelete.Some? && reportToDelete.value != ""
    }

    /**
      `fetchReports`, given what the reports endpoint returned (`None` when the request
      failed): a successful fetch replaces the list by its stable newest-first sort, a failed
      one keeps the list, and either way loading ends. The dialog is left alone.
    */
    method FetchReports(data: Option<seq<Report>>)
      requires Valid()
      modifies this
      ensures Valid()
      ensures !loading
      ensures data.Some? ==> StableNewestFirst(reports, data.value) && multiset(reports) == multiset(data.value)
      ensures data.None? ==> reports == old(reports)
      ensures deleteDialogOpen == old(deleteDialogOpen) && reportToDelete == old(reportToDelete)
    {
      loading := true;
      reports := FetchedList(reports, data);
      loading := false;
    }

    /** `handleDeleteClick`: remembers which report to delete and opens the dialog. */
    method HandleDeleteClick(id: string)
      requires Valid()
      modifies this
      ensures reportToDelete == Some(id) && deleteDialogOpen
      ensures reports == old(reports) && loading == old(loading)
      ensures Valid()
    {
      reportToDelete := Some(id);
      deleteDialogOpen := true;
    }

    /**
      `handleDeleteConfirm`, given whether the delete request succeeds. With nothing pending it
      does nothing and requests nothing. Otherwise it asks for the pending report to be
      deleted and, success or failure, closes the dialog and clears the pending id; only on
      success does it ask for the list to be fetched again (`refetch`).
    */
    method HandleDeleteConfirm(deleteSucceeds: bool) returns (requested: Option<string>, refetch: bool)
      requires Valid()
      modifies this
      ensures !old(HasPending()) ==>
                requested == None && !refetch &&
                deleteDialogOpen == old(deleteDialogOpen) && reportToDelete == old(reportToDelete)
      ensures old(HasPending()) ==>
                requested == old(reportToDelete) && refetch == deleteSucceeds &&
                !deleteDialogOpen && reportToDelete == None
      ensures reports == old(reports) && loading == old(loading)
      ensures Valid()
    {
      requested, refetch := None, false;
      if !HasPending() {
        return;
      }
      requested := reportToDelete;
      if deleteSucceeds {
        deleteDialogOpen := false;
        reportToDelete := None;
        refetch := true;
      } else {
        deleteDialogOpen := false;
        reportToDelete := None;
      }
    }

    /** The dialog's Cancel button: clears the pending id. */
    method Cancel()
      requires Valid()
      modifies this
      ensures reportToDelete == None
      ensures deleteDialogOpen == old(deleteDialogOpen) && reports == old(reports) && loading == old(loading)
      ensures Valid()
    {
      reportToDelete := None;
    }

    /** The dialog's `onOpenChange`: the dialog's open flag follows the dialog. */
    method OnOpenChange(open: bool)
      requires Valid()
      modifies this
      ensures deleteDialogOpen == open
      ensures reportToDelete == old(reportToDelete) && reports == old(reports) && loading == old(loading)
      ensures Valid()
    {
      deleteDialogOpen := open;
    }
  }

  /**
    A click followed directly by a confirmation requests the delete of the clicked report
    and leaves the dialog closed with nothing pending, unless the id is empty: then the
    confirmation does nothing and the dialog stays open.
  */
  method ClickThenConfirm(d: Dashboard, id: string, deleteSucceeds: bool) returns (requested: Option<string>)
    requires d.Valid()
    modifies d
    ensures d.Valid()
    ensures id != "" ==> requested == Some(id)
    ensures id == "" ==> requested == None
    ensures !d.deleteDialogOpen <==> id != ""
    ensures d.reportToDelete == if id == "" then Some(id) else None
  {
    d.HandleDeleteClick(id);
    var refetch;
    requested, refetch := d.HandleDeleteConfirm(deleteSucceeds);
  }
}
