/**
  Shortcuts of the home feed: a shortcut is a saved filter whose resource name
  has the form `users/{user}/shortcuts/{shortcut}`. The feed keeps only the
  trailing id of the selected shortcut and looks the shortcut up by it.
 */
module Shortcuts {
  import opened Strings

  datatype Option<T> = None | Some(value: T)

  /** A shortcut record as the user store holds it: the home page reads only its name and its filter. */
  datatype Shortcut = Shortcut(name: string, filter: string)

  /**
    `getShortcutId`: the fourth `/`-separated segment of a name that splits
    into exactly four segments, and "" for any other name.
   */
  function ShortcutId(name: string): (id: string)
    ensures '/' !in id
    ensures Occurrences(name, '/') != 3 ==> id == ""
  {
    var parts := Split(name, '/');
    if |parts| == 4 then parts[3] else ""
  }

  /** A well-formed shortcut name yields its own shortcut id. */
  lemma ShortcutIdOfResourceName(user: string, shortcut: string)
    requires '/' !in user && '/' !in shortcut
    ensures ShortcutId("users/" + user + "/shortcuts/" + shortcut) == shortcut
  {
    var parts := ["users", user, "shortcuts", shortcut];
    assert Join(parts[2..], "/") == "shortcuts/" + shortcut;
    assert Join(parts[1..], "/") == user + "/shortcuts/" + shortcut by {
      assert parts[1..][1..] == parts[2..];
    }
    assert Join(parts, "/") == "users/" + user + "/shortcuts/" + shortcut;
    SplitJoin(parts, '/');
  }

  /**
    A name with exactly three slashes yields the text after its last slash:
    the name is some prefix, a slash, and the id.
   */
  lemma ShortcutIdIsLastSegment(name: string)
    requires Occurrences(name, '/') == 3
    ensures var id := ShortcutId(name);
      |id| < |name| && name[|name| - |id| ..] == id && name[|name| - |id| - 1] == '/'
  {
    var parts := Split(name, '/');
    JoinSplit(name, '/');
    JoinSnoc(parts, "/");
    var prefix := Join(parts[..3], "/");
    assert name == prefix + "/" + parts[3];
  }

  /** Position `k` holds the first shortcut whose id is `id`. */
  predicate IsFirstMatch(shortcuts: seq<Shortcut>, id: string, k: int)
  {
    && 0 <= k < |shortcuts|
    && ShortcutId(shortcuts[k].name) == id
    && forall j :: 0 <= j < k ==> ShortcutId(shortcuts[j].name) != id
  }

  /** A first match in the tail, after a head that does not match, is a first match one position later. */
  lemma FirstMatchAfterHead(shortcuts: seq<Shortcut>, id: string, k: int)
    requires shortcuts != [] && ShortcutId(shortcuts[0].name) != id
    requires IsFirstMatch(shortcuts[1..], id, k)
    ensures IsFirstMatch(shortcuts, id, k + 1)
  {
    forall j | 1 <= j < k + 1 ensures ShortcutId(shortcuts[j].name) != id {
      assert shortcuts[j] == shortcuts[1..][j - 1];
    }
  }

  /**
    The lookup at the top of the home page: the first shortcut whose id is
    `id`, or nothing when no shortcut has that id.
   */
  function FindShortcut(shortcuts: seq<Shortcut>, id: string): (r: Option<Shortcut>)
    ensures r.None? <==> forall k :: 0 <= k < |shortcuts| ==> ShortcutId(shortcuts[k].name) != id
    ensures r.Some? ==> exists k :: IsFirstMatch(shortcuts, id, k) && shortcuts[k] == r.value
  {
    if shortcuts == [] then None
    else if ShortcutId(shortcuts[0].name) == id then
      assert IsFirstMatch(shortcuts, id, 0);
      Some(shortcuts[0])
    else
      var r := FindShortcut(shortcuts[1..], id);
      assert r.Some? ==> exists k :: IsFirstMatch(shortcuts, id, k) && shortcuts[k] == r.value by {
        if r.Some? {
          var k :| IsFirstMatch(shortcuts[1..], id, k) && shortcuts[1..][k] == r.value;
          FirstMatchAfterHead(shortcuts, id, k);
        }
      }
      r
  }

  /**
    If the filter store holds the empty id, the lookup picks the first
    shortcut whose id is "": one whose name is not of the four-segment form,
    or whose last segment is empty. So any malformed name makes it succeed.
   */
  lemma EmptyIdMatchesMalformedName(shortcuts: seq<Shortcut>, k: nat)
    requires k < |shortcuts| && Occurrences(shortcuts[k].name, '/') != 3
    ensures FindShortcut(shortcuts, "").Some?
  {
  }

  /**
    The lookup against the filter store's selected id, which may be absent.
    `getShortcutId` always yields a string, so an absent id equals no
    shortcut's id and nothing is selected.
   */
  function SelectShortcut(shortcuts: seq<Shortcut>, selected: Option<string>): (r: Option<Shortcut>)
    ensures selected.None? ==> r.None?
    ensures selected.Some? ==>
      (r.None? <==> forall k :: 0 <= k < |shortcuts| ==> ShortcutId(shortcuts[k].name) != selected.value)
    ensures r.Some? ==> selected.Some? && exists k :: IsFirstMatch(shortcuts, selected.value, k) && shortcuts[k] == r.value
  {
    match selected
    case None => None
    case Some(id) => FindShortcut(shortcuts, id)
  }

  /** A first match is unique: no two positions are both the first shortcut with a given id. */
  lemma FirstMatchUnique(shortcuts: seq<Shortcut>, id: string, j: int, k: int)
    requires IsFirstMatch(shortcuts, id, j) && IsFirstMatch(shortcuts, id, k)
    ensures j == k
  {
  }

  /** `selectedShortcut?.filter || ""`: the selected shortcut's filter, or "". */
  function SelectedFilter(selected: Option<Shortcut>): (f: string)
    ensures f != "" ==> selected.Some? && f == selected.value.filter
    ensures selected.None? ==> f == ""
    ensures selected.Some? ==> f == selected.value.filter
  {
    match selected
    case None => ""
    case Some(s) => if s.filter != "" then s.filter else ""
  }
}
