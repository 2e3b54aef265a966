/**
 * The task table component's state and its event handlers. Each method is one
 * handler together with the re-render and the effect it triggers: whenever the task
 * list or the search term changes, the filtered list is recomputed and the table
 * goes back to page 1.
 */
module TaskTable {

  import opened Wrappers
  import opened Tasks
  import Paging

  /** All state hooks of the component as one value, to say what a handler changes. */
  datatype Snapshot = Snapshot(
    tasks: seq<Task>,
    searchTerm: string,
    currentPage: nat,
    itemsPerPage: nat,
    filteredTasks: seq<Task>,
    showForm: bool,
    showEditForm: bool,
    showDeleteModal: bool,
    selectedTask: Option<Task>,
    dropdownOpen: Option<Id>,
    taskToDelete: Option<Task>)

  /** `dropdownOpen === id ? null : id`: at most one row's menu is open, and clicking it again closes it. */
  function Toggle(open: Option<Id>, id: Id): (r: Option<Id>)
    ensures r == Some(id) <==> open != Some(id)
    ensures r.Some? ==> r.value == id
  {
    if open == Some(id) then None else Some(id)
  }

  /** Toggling the same row twice closes every menu, unless that row was the open one. */
  lemma ToggleTwice(open: Option<Id>, id: Id)
    ensures Toggle(Toggle(open, id), id) == if open == Some(id) then open else None
  {
  }

  class TaskTable {
    var tasks: seq<Task>
    var searchTerm: string
    var currentPage: nat
    var itemsPerPage: nat
    var filteredTasks: seq<Task>
    var showForm: bool
    var showEditForm: bool
    var showDeleteModal: bool
    var selectedTask: Option<Task>
    var dropdownOpen: Option<Id>
    var taskToDelete: Option<Task>

    /** The page size is a selector option and the filtered list is in step with the list and the term. */
    ghost predicate Valid()
      reads this
    {
      itemsPerPage in Paging.PageSizes && filteredTasks == Filter(tasks, searchTerm)
    }

    ghost function State(): Snapshot
      reads this
    {
      Snapshot(tasks, searchTerm, currentPage, itemsPerPage, filteredTasks,
               showForm, showEditForm, showDeleteModal, selectedTask, dropdownOpen, taskToDelete)
    }

    /** The initial state of the hooks, after the filter effect's first run on mount. */
    constructor ()
      ensures Valid()
      ensures State() == Snapshot([], "", 1, Paging.DefaultPageSize, [],
                                  false, false, false, None, None, None)
    {
      tasks, searchTerm, currentPage, itemsPerPage, filteredTasks := [], "", 1, Paging.DefaultPageSize, [];
      showForm, showEditForm, showDeleteModal := false, false, false;
      selectedTask, dropdownOpen, taskToDelete := None, None, None;
    }

    /** The number of pages of the filtered list, 0 when it is empty. */
    function TotalPages(): (t: nat)
      reads this
      requires Valid()
      ensures (t - 1) * itemsPerPage < |filteredTasks| <= t * itemsPerPage
      ensures t == 0 <==> filteredTasks == []
    {
      Paging.TotalPagesIsCeiling(|filteredTasks|, itemsPerPage);
      Paging.TotalPages(|filteredTasks|, itemsPerPage)
    }

    /** The tasks shown: the current page of the filtered list, at most a page-size of them. */
    function CurrentTasks(): (r: seq<Task>)
      reads this
      requires Valid()
      ensures |r| <= itemsPerPage
      ensures currentPage == 0 || currentPage > TotalPages() ==> r == []
      ensures 1 <= currentPage < TotalPages() ==> |r| == itemsPerPage
      ensures forall i :: 0 <= i < |r| ==> Matches(r[i], searchTerm)
    {
      Paging.PageFacts(filteredTasks, currentPage, itemsPerPage);
      Paging.Page(filteredTasks, currentPage, itemsPerPage)
    }

    /** The effect on [searchTerm, tasks]: recompute the filtered list and go back to page 1. */
    method FilterEffect()
      requires itemsPerPage in Paging.PageSizes
      modifies this
      ensures Valid()
      ensures State() == old(State()).(filteredTasks := Filter(tasks, searchTerm), currentPage := 1)
    {
      filteredTasks := Filter(tasks, searchTerm);
      currentPage := 1;
    }

    /** The task list arrived from the store: it replaces the list, and the effect filters it. */
    method TasksLoaded(data: seq<Task>)
      requires Valid()
      modifies this
      ensures Valid()
      ensures State() == old(State()).(tasks := data, filteredTasks := Filter(data, searchTerm), currentPage := 1)
    {
      tasks := data;
      filteredTasks := data;
      FilterEffect();
    }

    /** Typing in the search box. Setting the same term again re-renders nothing and keeps the page. */
    method SetSearchTerm(term: string)
      requires Valid()
      modifies this
      ensures Valid()
      ensures term == old(searchTerm) ==> State() == old(State())
      ensures term != old(searchTerm) ==>
        State() == old(State()).(searchTerm := term, filteredTasks := Filter(tasks, term), currentPage := 1)
    {
      if term != searchTerm {
        searchTerm := term;
        FilterEffect();
      }
    }

    /** Choosing a page size: the current page is kept, even past the new last page. */
    method SetItemsPerPage(size: nat)
      requires Valid()
      requires size in Paging.PageSizes
      modifies this
      ensures Valid()
      ensures State() == old(State()).(itemsPerPage := size)
    {
      itemsPerPage := size;
    }

    method OpenForm()
      modifies this
      ensures State() == old(State()).(showForm := true, selectedTask := None)
    {
      showForm := true;
      selectedTask := None;
    }

    method OpenEditForm(task: Task)
      modifies this
      ensures State() == old(State()).(selectedTask := Some(task), showEditForm := true, dropdownOpen := None)
    {
      selectedTask := Some(task);
      showEditForm := true;
      dropdownOpen := None;
    }

    method CloseForm()
      modifies this
      ensures State() == old(State()).(showForm := false, selectedTask := None)
    {
      showForm := false;
      selectedTask := None;
    }

    method CloseEditForm()
      modifies this
      ensures State() == old(State()).(showEditForm := false, selectedTask := None)
    {
      showEditForm := false;
      selectedTask := None;
    }

    /** The create form reports the stored task: it goes at the end of the list. */
    method AddTask(newTask: Task)
      requires Valid()
      modifies this
      ensures Valid()
      ensures State() == old(State()).(tasks := Append(old(tasks), newTask),
                                       filteredTasks := Filter(Append(old(tasks), newTask), searchTerm),
                                       currentPage := 1)
      ensures filteredTasks == old(filteredTasks) + if Matches(newTask, searchTerm) then [newTask] else []
    {
      tasks := Append(tasks, newTask);
      FilterEffect();
      FilterAppend(old(tasks), newTask, searchTerm);
    }

    /** The edit form reports the stored task: it replaces every task with its id, in place. */
    method UpdateTask(updatedTask: Task)
      requires Valid()
      modifies this
      ensures Valid()
      ensures State() == old(State()).(tasks := ReplaceById(old(tasks), updatedTask),
                                       filteredTasks := Filter(ReplaceById(old(tasks), updatedTask), searchTerm),
                                       currentPage := 1)
    {
      tasks := ReplaceById(tasks, updatedTask);
      FilterEffect();
    }

    method HandleDeleteClick(task: Task)
      modifies this
      ensures State() == old(State()).(taskToDelete := Some(task), showDeleteModal := true, dropdownOpen := None)
    {
      taskToDelete := Some(task);
      showDeleteModal := true;
      dropdownOpen := None;
    }

    /**
     * The delete request has settled. When it resolved (whatever the HTTP status) the
     * task's id is removed from the list. When it was rejected, or no task was targeted
     * (reading `_id` of null throws inside the `try`), the list stays. Either way the
     * modal closes and the target is cleared.
     */
    method ConfirmDelete(requestResolved: bool)
      requires Valid()
      modifies this
      ensures Valid()
      ensures var removed := old(taskToDelete).Some? && requestResolved;
        State() == (if removed
                    then old(State()).(tasks := RemoveById(old(tasks), old(taskToDelete).value.id),
                                       filteredTasks := Filter(RemoveById(old(tasks), old(taskToDelete).value.id), searchTerm),
                                       currentPage := 1)
                    else old(State())).(showDeleteModal := false, taskToDelete := None)
    {
      if taskToDelete.Some? && requestResolved {
        tasks := RemoveById(tasks, taskToDelete.value.id);
        FilterEffect();
      }
      showDeleteModal := false;
      taskToDelete := None;
    }

    method CancelDelete()
      modifies this
      ensures State() == old(State()).(showDeleteModal := false, taskToDelete := None)
    {
      showDeleteModal := false;
      taskToDelete := None;
    }

    method ToggleDropdown(id: Id)
      modifies this
      ensures State() == old(State()).(dropdownOpen := Toggle(old(dropdownOpen), id))
    {
      dropdownOpen := Toggle(dropdownOpen, id);
    }

    /** First (disabled on page 1). */
    method GoFirst()
      requires Valid()
      modifies this
      ensures Valid()
      ensures State() == old(State()).(currentPage := Paging.First())
    {
      if currentPage != 1 {
        currentPage := Paging.First();
      }
    }

    /** Previous (disabled on page 1): never below page 1. */
    method GoPrevious()
      requires Valid()
      modifies this
      ensures Valid()
      ensures State() == old(State()).(currentPage := Paging.Previous(old(currentPage)))
      ensures currentPage >= 1
    {
      if currentPage != 1 {
        currentPage := Paging.Previous(currentPage);
      }
    }

    /** Next (disabled on the last page): never past the last page, so page 0 on an empty list. */
    method GoNext()
      requires Valid()
      modifies this
      ensures Valid()
      ensures State() == old(State()).(currentPage := Paging.Next(old(currentPage), old(TotalPages())))
      ensures currentPage <= TotalPages()
    {
      var totalPages := TotalPages();
      if currentPage != totalPages {
        currentPage := Paging.Next(currentPage, totalPages);
      }
    }

    /** Last (disabled on the last page). */
    method GoLast()
      requires Valid()
      modifies this
      ensures Valid()
      ensures State() == old(State()).(currentPage := Paging.Last(old(TotalPages())))
    {
      var totalPages := TotalPages();
      if currentPage != totalPages {
        currentPage := Paging.Last(totalPages);
      }
    }
  }
}
