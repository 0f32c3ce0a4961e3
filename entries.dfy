/** The in-memory list of journal entries shown in the sidebar, newest first,
    and the selected entry. Files behind the entries are not modelled: the
    outcome of each file operation is an input. */
module Entries {
  import opened Optional
  import Preview

  /** An entry's UUID. Only equality of identifiers matters here. */
  type EntryId = nat

  datatype Entry = Entry(id: EntryId, date: string, filename: string, previewText: string)

  /** Array.firstIndex(where: { $0.id == id }). */
  function IndexOfId(entries: seq<Entry>, id: EntryId): (r: Option<nat>)
    ensures r.Some? ==>
              r.value < |entries| && entries[r.value].id == id
              && forall j :: 0 <= j < r.value ==> entries[j].id != id
    ensures r.None? <==> forall j :: 0 <= j < |entries| ==> entries[j].id != id
  {
    if entries == [] then None
    else if entries[0].id == id then Some(0)
    else match IndexOfId(entries[1..], id)
      case Some(i) => Some(i + 1)
      case None => None
  }

  /** No two entries share an identifier (UUIDs are unique). */
  ghost predicate UniqueIds(entries: seq<Entry>) {
    forall i, j :: 0 <= i < j < |entries| ==> entries[i].id != entries[j].id
  }

  ghost predicate Fresh(entries: seq<Entry>, id: EntryId) {
    forall j :: 0 <= j < |entries| ==> entries[j].id != id
  }

  /** Array.remove(at:). */
  function RemoveAt(entries: seq<Entry>, i: nat): (r: seq<Entry>)
    requires i < |entries|
    ensures |r| == |entries| - 1
    ensures forall j :: 0 <= j < i ==> r[j] == entries[j]
    ensures forall j :: i <= j < |r| ==> r[j] == entries[j + 1]
  {
    entries[..i] + entries[i + 1..]
  }

  /** Removing the entry at the index of `id` from a list without repeated
      identifiers leaves no entry with that identifier and keeps the others
      unique. */
  lemma RemoveAtRemovesId(entries: seq<Entry>, i: nat)
    requires i < |entries| && UniqueIds(entries)
    ensures UniqueIds(RemoveAt(entries, i))
    ensures Fresh(RemoveAt(entries, i), entries[i].id)
  {
    var r := RemoveAt(entries, i);
    forall a, b | 0 <= a < b < |r| ensures r[a].id != r[b].id {
      var a' := if a < i then a else a + 1;
      var b' := if b < i then b else b + 1;
      assert r[a] == entries[a'] && r[b] == entries[b'];
    }
    forall j | 0 <= j < |r| ensures r[j].id != entries[i].id {
      var j' := if j < i then j else j + 1;
      assert r[j] == entries[j'];
    }
  }

  class Journal {
    var entries: seq<Entry>
    var selectedId: Option<EntryId>

    ghost predicate Valid()
      reads this
    {
      UniqueIds(entries)
    }

    constructor ()
      ensures Valid() && entries == [] && selectedId == None
    {
      entries := [];
      selectedId := None;
    }

    /** The list part of creating a new entry: it goes to the front and
        becomes the selection. Its UUID is new, so differs from every
        identifier in the list. */
    method InsertNew(e: Entry)
      requires Valid() && Fresh(entries, e.id)
      modifies this
      ensures Valid()
      ensures entries == [e] + old(entries) && selectedId == Some(e.id)
    {
      entries := [e] + entries;
      selectedId := Some(e.id);
    }

    /** Deleting an entry after its file removal: `fileRemoved` is the outcome
        of removing the file (nothing changes when it failed). If the entry
        was selected, the new first entry is selected, or when none is left
        the new entry `replacement` is created and selected. */
    method Delete(id: EntryId, fileRemoved: bool, replacement: Entry)
      requires Valid() && Fresh(entries, replacement.id)
      modifies this
      ensures Valid()
      ensures !fileRemoved || IndexOfId(old(entries), id).None? ==>
        entries == old(entries) && selectedId == old(selectedId)
      ensures fileRemoved && IndexOfId(old(entries), id).Some? ==>
        var rest := RemoveAt(old(entries), IndexOfId(old(entries), id).value);
        if old(selectedId) != Some(id) then
          entries == rest && selectedId == old(selectedId)
        else if rest != [] then
          entries == rest && selectedId == Some(rest[0].id)
        else
          entries == [replacement] && selectedId == Some(replacement.id)
      ensures fileRemoved ==> Fresh(entries, id)
    {
      if fileRemoved {
        var found := IndexOfId(entries, id);
        if found.Some? {
          RemoveAtRemovesId(entries, found.value);
          entries := RemoveAt(entries, found.value);
          if selectedId == Some(id) {
            if entries != [] {
              selectedId := Some(entries[0].id);
            } else {
              InsertNew(replacement);
            }
          }
        }
      }
    }

    /** Refreshing one entry's preview from its file's content; `content` is
        None when reading the file failed, and nothing changes then. Only the
        first entry with the identifier is touched. */
    method UpdatePreview(id: EntryId, content: Option<string>)
      requires Valid()
      modifies this
      ensures Valid() && selectedId == old(selectedId) && |entries| == |old(entries)|
      ensures content.None? || IndexOfId(old(entries), id).None? ==> entries == old(entries)
      ensures content.Some? && IndexOfId(old(entries), id).Some? ==>
        var i := IndexOfId(old(entries), id).value;
        entries == old(entries)[i := old(entries)[i].(previewText := Preview.Preview(content.value))]
      ensures forall j :: 0 <= j < |entries| ==>
        entries[j].id == old(entries)[j].id && entries[j].date == old(entries)[j].date
        && entries[j].filename == old(entries)[j].filename
    {
      if content.Some? {
        var found := IndexOfId(entries, id);
        if found.Some? {
          var i := found.value;
          entries := entries[i := entries[i].(previewText := Preview.Preview(content.value))];
        }
      }
    }
  }

  /** Creating two entries and deleting the selected newer one leaves the
      older one, selected. */
  method InsertThenDelete(a: Entry, b: Entry, spare: Entry) returns (left: seq<Entry>, selected: Option<EntryId>)
    requires a.id != b.id && spare.id != a.id && spare.id != b.id
    ensures left == [a] && selected == Some(a.id)
  {
    var j := new Journal();
    j.InsertNew(a);
    j.InsertNew(b);
    j.Delete(b.id, true, spare);
    left, selected := j.entries, j.selectedId;
  }
}
