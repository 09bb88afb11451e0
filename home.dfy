/**
  The home page itself: what it hands to the paged memo list. The list is
  asked for the current user's memos, ordered by display time in the chosen
  direction, with the selected shortcut's filter and with the expression the
  filter compiler builds from the active conditions.
 */
module Home {
  import opened Shortcuts
  import MemoFilter
  import MemoOrdering

  /** The `orderBy` argument of the memo list. */
  function OrderBy(orderByTimeAsc: bool): (r: string)
    ensures r == "display_time asc" || r == "display_time desc"
    ensures r == "display_time asc" <==> orderByTimeAsc
  {
    if orderByTimeAsc then "display_time asc" else "display_time desc"
  }

  /** The arguments the home page passes to the paged memo list. */
  datatype MemoListQuery = MemoListQuery(owner: string, orderBy: string, filter: string, oldFilter: string)

  /**
    The query for the current user `owner`, the user's shortcuts, the
    selected shortcut id as the filter store holds it (`None` when it holds
    none), the active filter conditions and the ordering direction.
   */
  function HomeQuery(owner: string, shortcuts: seq<Shortcut>, selectedId: Option<string>,
                     conditions: seq<MemoFilter.Condition>, orderByTimeAsc: bool): (q: MemoListQuery)
    ensures q.owner == owner
    ensures q.orderBy == (if orderByTimeAsc then "display_time asc" else "display_time desc")
    ensures q.oldFilter == MemoFilter.Compile(conditions)
    ensures selectedId.None? ==> q.filter == ""
    ensures selectedId.Some? ==>
      forall k :: IsFirstMatch(shortcuts, selectedId.value, k) ==> q.filter == shortcuts[k].filter
    ensures selectedId.Some? && (forall k :: 0 <= k < |shortcuts| ==> ShortcutId(shortcuts[k].name) != selectedId.value)
      ==> q.filter == ""
  {
    var selected := SelectShortcut(shortcuts, selectedId);
    assert selectedId.Some? ==>
      forall k :: IsFirstMatch(shortcuts, selectedId.value, k) ==> SelectedFilter(selected) == shortcuts[k].filter
    by {
      if selectedId.Some? {
        forall k | IsFirstMatch(shortcuts, selectedId.value, k)
          ensures SelectedFilter(selected) == shortcuts[k].filter
        {
          var j :| IsFirstMatch(shortcuts, selectedId.value, j) && shortcuts[j] == selected.value;
          FirstMatchUnique(shortcuts, selectedId.value, j, k);
        }
      }
    }
    MemoListQuery(owner, OrderBy(orderByTimeAsc), SelectedFilter(selected), MemoFilter.Compile(conditions))
  }

  /**
    The direction named in `orderBy` is the one `listSort` applies within
    the pinned and the unpinned memos.
   */
  lemma OrderByMatchesListSort(memos: seq<MemoOrdering.Memo>, orderByTimeAsc: bool, i: int, j: int)
    requires var r := MemoOrdering.ListSort(memos, orderByTimeAsc);
      0 <= i < j < |r| && r[i].pinned == r[j].pinned
    ensures var r := MemoOrdering.ListSort(memos, orderByTimeAsc);
      OrderBy(orderByTimeAsc) == "display_time asc" ==> r[i].displayTime <= r[j].displayTime
    ensures var r := MemoOrdering.ListSort(memos, orderByTimeAsc);
      OrderBy(orderByTimeAsc) == "display_time desc" ==> r[i].displayTime >= r[j].displayTime
  {
    MemoOrdering.ListSortOrder(memos, orderByTimeAsc);
  }
}
