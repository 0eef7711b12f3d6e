/**
 * The notes store of `app/persistence/notes_repository.py`: an append-only
 * table `character_notes(id, character_id, note, created_at)` whose `id` is
 * an AUTOINCREMENT key. `add_note` normalises a note and inserts it;
 * `get_notes` reads back the newest notes of one character.
 *
 * The table is held in memory as the sequence of its rows in insertion
 * order, together with the next id the AUTOINCREMENT key will hand out;
 * the SQL statements become functions over that sequence.
 */
module NotesStore {
  import opened Wrappers
  import opened Text

  /** A stored note is cut to this many characters. */
  const MaxNoteLength := 100

  /** `get_notes` returns this many notes when no limit is given. */
  const DefaultLimit := 3

  /** One row of `character_notes`. `createdAt` is the ISO timestamp string
      taken from the clock when the row was inserted. */
  datatype NoteRow = NoteRow(id: int, characterId: int, note: string, createdAt: string)

  /** What `get_notes` returns per row: the `(note, created_at)` pair. */
  type NoteEntry = (string, string)

  // ---------------------------------------------------------------------------
  // Normalising a note

  /** `(note or "").strip()[:100]`: the note without its surrounding
      whitespace, cut to its first 100 characters. It is empty exactly when
      the note is missing or blank; otherwise it starts with the first
      character of the note that is not whitespace. */
  function Normalize(note: Option<string>): (r: string)
    ensures |r| <= MaxNoteLength
    ensures r <= Strip(note.GetOr(""))
    ensures |r| == if |Strip(note.GetOr(""))| <= MaxNoteLength then |Strip(note.GetOr(""))| else MaxNoteLength
    ensures r == [] <==> IsBlank(note.GetOr(""))
    ensures r != [] ==> !IsWhitespace(r[0])
  {
    var text := Strip(note.GetOr(""));
    if |text| <= MaxNoteLength then text else text[..MaxNoteLength]
  }

  /** A missing, empty or whitespace-only note normalises to nothing. */
  lemma {:induction false} NormalizeDropsBlank(note: Option<string>)
    requires note == None || IsBlank(note.value)
    ensures Normalize(note) == []
  {
  }

  /** A note that is already stripped and short enough is stored as it is. */
  lemma {:induction false} NormalizeKeepsShortStripped(text: string)
    requires |text| <= MaxNoteLength
    requires text == [] || (!IsWhitespace(text[0]) && !IsWhitespace(text[|text| - 1]))
    ensures Normalize(Some(text)) == text
  {
    assert Some(text).GetOr("") == text;
    StripOfStripped(text);
  }

  // ---------------------------------------------------------------------------
  // The table's invariant: AUTOINCREMENT ids

  /** Rows are stored in ascending id order, so ids are unique. */
  predicate IdsIncreasing(rows: seq<NoteRow>) {
    forall i, j :: 0 <= i < j < |rows| ==> rows[i].id < rows[j].id
  }

  /** Every stored id is below the next id to be handed out. */
  predicate IdsBelow(rows: seq<NoteRow>, nextId: int) {
    forall i :: 0 <= i < |rows| ==> rows[i].id < nextId
  }

  /** Appending a row whose id exceeds every stored one keeps the ids increasing. */
  lemma {:induction false} AppendKeepsIncreasing(rows: seq<NoteRow>, row: NoteRow)
    requires IdsIncreasing(rows) && IdsBelow(rows, row.id)
    ensures IdsIncreasing(rows + [row]) && IdsBelow(rows + [row], row.id + 1)
  {
    var rows' := rows + [row];
    forall i, j | 0 <= i < j < |rows'|
      ensures rows'[i].id < rows'[j].id
    {
      assert rows'[i] == rows[i];
      if j < |rows| {
        assert rows'[j] == rows[j];
      }
    }
  }

  /** A prefix of the table keeps increasing ids. */
  lemma {:induction false} PrefixIncreasing(rows: seq<NoteRow>, n: nat)
    requires IdsIncreasing(rows) && n <= |rows|
    ensures IdsIncreasing(rows[..n])
  {
    forall i, j | 0 <= i < j < n
      ensures rows[..n][i].id < rows[..n][j].id
    {
      assert rows[..n][i] == rows[i] && rows[..n][j] == rows[j];
    }
  }

  // ---------------------------------------------------------------------------
  // `SELECT note, created_at FROM character_notes WHERE character_id = ?
  //  ORDER BY id DESC LIMIT ?`

  /** Every row listed belongs to character `c`. */
  predicate AllOf(r: seq<NoteRow>, c: int) {
    forall i :: 0 <= i < |r| ==> r[i].characterId == c
  }

  /** Ids strictly decrease along the list: newest first. */
  predicate NewestToOldest(r: seq<NoteRow>) {
    forall i, j :: 0 <= i < j < |r| ==> r[i].id > r[j].id
  }

  /** The rows of character `c`, last inserted first. Only rows of `c` are
      listed, each one a stored row, and every stored row of `c` is listed. */
  function RowsOf(rows: seq<NoteRow>, c: int): (r: seq<NoteRow>)
    ensures |r| <= |rows|
    ensures AllOf(r, c)
    ensures forall i :: 0 <= i < |r| ==> r[i] in rows
    ensures forall i :: 0 <= i < |rows| && rows[i].characterId == c ==> rows[i] in r
    decreases |rows|
  {
    if rows == [] then []
    else
      var init := rows[..|rows| - 1];
      var last := rows[|rows| - 1];
      var rest := RowsOf(init, c);
      assert rows == init + [last];
      if last.characterId == c then
        assert AllOf([last] + rest, c) by {
          forall i | 0 <= i < |rest| + 1
            ensures ([last] + rest)[i].characterId == c
          {
            if i > 0 { assert ([last] + rest)[i] == rest[i - 1]; }
          }
        }
        [last] + rest
      else rest
  }

  /** In a table with increasing ids, the last row's id is above all earlier ones. */
  lemma {:induction false} LastAboveEarlier(rows: seq<NoteRow>)
    requires IdsIncreasing(rows) && rows != []
    ensures IdsBelow(rows[..|rows| - 1], rows[|rows| - 1].id)
  {
    var n := |rows| - 1;
    forall i | 0 <= i < n
      ensures rows[..n][i].id < rows[n].id
    {
      assert rows[..n][i] == rows[i];
    }
  }

  /** Rows drawn from a table whose ids are below `bound` have ids below `bound`. */
  lemma {:induction false} DrawnBelow(xs: seq<NoteRow>, rows: seq<NoteRow>, bound: int)
    requires IdsBelow(rows, bound)
    requires forall i :: 0 <= i < |xs| ==> xs[i] in rows
    ensures IdsBelow(xs, bound)
  {
    forall k | 0 <= k < |xs|
      ensures xs[k].id < bound
    {
      var p :| 0 <= p < |rows| && rows[p] == xs[k];
    }
  }

  /** A row newer than every row of a newest-first list can go in front of it. */
  lemma {:induction false} NewestCons(row: NoteRow, rest: seq<NoteRow>)
    requires NewestToOldest(rest) && IdsBelow(rest, row.id)
    ensures NewestToOldest([row] + rest)
  {
    var r := [row] + rest;
    forall i, j | 0 <= i < j < |r|
      ensures r[i].id > r[j].id
    {
      assert r[j] == rest[j - 1];
      if i > 0 { assert r[i] == rest[i - 1]; }
    }
  }

  /** On a table with increasing ids, `RowsOf` is ordered by id, descending. */
  lemma {:induction false} RowsOfNewestFirst(rows: seq<NoteRow>, c: int)
    requires IdsIncreasing(rows)
    ensures NewestToOldest(RowsOf(rows, c))
    decreases |rows|
  {
    if rows != [] {
      var n := |rows| - 1;
      var init := rows[..n];
      PrefixIncreasing(rows, n);
      RowsOfNewestFirst(init, c);
      if rows[n].characterId == c {
        LastAboveEarlier(rows);
        DrawnBelow(RowsOf(init, c), init, rows[n].id);
        NewestCons(rows[n], RowsOf(init, c));
      }
    }
  }

  /** SQLite's `LIMIT`: at most `limit` items, all of them when `limit` is negative. */
  function Limit<T>(xs: seq<T>, limit: int): (r: seq<T>)
    ensures r <= xs
    ensures limit < 0 ==> r == xs
    ensures limit >= 0 ==> |r| == if limit <= |xs| then limit else |xs|
  {
    if limit < 0 || limit >= |xs| then xs else xs[..limit]
  }

  /** The rows `get_notes(c, limit)` reads. */
  function SelectRows(rows: seq<NoteRow>, c: int, limit: int): (r: seq<NoteRow>)
    ensures AllOf(r, c)
    ensures limit >= 0 ==> |r| <= limit
    ensures r <= RowsOf(rows, c)
  {
    Limit(RowsOf(rows, c), limit)
  }

  /** The `(note, created_at)` pairs of some rows, in order. */
  function Entries(rows: seq<NoteRow>): (r: seq<NoteEntry>)
    ensures |r| == |rows|
    ensures forall i :: 0 <= i < |r| ==> r[i] == (rows[i].note, rows[i].createdAt)
    decreases |rows|
  {
    if rows == [] then [] else [(rows[0].note, rows[0].createdAt)] + Entries(rows[1..])
  }

  /** The selected rows are all of `c`'s rows when the limit allows, and strictly newest first. */
  lemma {:induction false} SelectRowsProperties(rows: seq<NoteRow>, c: int, limit: int)
    requires IdsIncreasing(rows)
    ensures NewestToOldest(SelectRows(rows, c, limit))
    ensures limit < 0 || limit >= |RowsOf(rows, c)| ==>
      forall i :: 0 <= i < |rows| && rows[i].characterId == c ==> rows[i] in SelectRows(rows, c, limit)
  {
    RowsOfNewestFirst(rows, c);
    var all := RowsOf(rows, c);
    var r := SelectRows(rows, c, limit);
    forall i, j | 0 <= i < j < |r|
      ensures r[i].id > r[j].id
    {
      assert r[i] == all[i] && r[j] == all[j];
    }
  }

  /** A row appended to the table comes first among its character's rows. */
  lemma {:induction false} AppendedRowFirst(rows: seq<NoteRow>, row: NoteRow, limit: int)
    requires limit != 0
    ensures SelectRows(rows + [row], row.characterId, limit) != []
    ensures SelectRows(rows + [row], row.characterId, limit)[0] == row
  {
    var rows' := rows + [row];
    assert rows'[..|rows'| - 1] == rows;
    assert RowsOf(rows', row.characterId) == [row] + RowsOf(rows, row.characterId);
  }

  /** A row appended for one character changes no other character's selection. */
  lemma {:induction false} AppendedRowElsewhere(rows: seq<NoteRow>, row: NoteRow, c: int, limit: int)
    requires c != row.characterId
    ensures SelectRows(rows + [row], c, limit) == SelectRows(rows, c, limit)
  {
    var rows' := rows + [row];
    assert rows'[..|rows'| - 1] == rows;
  }

  /** Both effects of an append on every selection. */
  lemma {:induction false} AppendEffects(rows: seq<NoteRow>, row: NoteRow)
    ensures forall k :: k >= 1 ==>
      SelectRows(rows + [row], row.characterId, k) != [] && SelectRows(rows + [row], row.characterId, k)[0] == row
    ensures forall c, k :: c != row.characterId ==> SelectRows(rows + [row], c, k) == SelectRows(rows, c, k)
  {
    forall k | k >= 1
      ensures SelectRows(rows + [row], row.characterId, k) != []
      ensures SelectRows(rows + [row], row.characterId, k)[0] == row
    {
      AppendedRowFirst(rows, row, k);
    }
    forall c, k | c != row.characterId
      ensures SelectRows(rows + [row], c, k) == SelectRows(rows, c, k)
    {
      AppendedRowElsewhere(rows, row, c, k);
    }
  }

  // ---------------------------------------------------------------------------
  // The repository

  /** `NotesRepository` over its `character_notes` table. */
  class NotesRepository {
    /** The table's rows, in insertion order. */
    var rows: seq<NoteRow>
    /** The id the AUTOINCREMENT key hands out next. */
    var nextId: int

    /** AUTOINCREMENT ids: ascending in insertion order and below the next id. */
    predicate Valid()
      reads this
    {
      nextId >= 1 && IdsIncreasing(rows) && IdsBelow(rows, nextId)
    }

    /** A fresh database: the table is created empty and the first id is 1. */
    constructor()
      ensures Valid()
      ensures rows == [] && nextId == 1
    {
      rows := [];
      nextId := 1;
    }

    /** `add_note(character_id, note)`: a note that normalises to nothing is
        dropped; any other is appended, once, for that character, under a fresh
        id above every stored one. Earlier rows are untouched. */
    method AddNote(characterId: int, note: Option<string>, createdAt: string)
      requires Valid()
      modifies this
      ensures Valid()
      ensures Normalize(note) == [] ==> rows == old(rows) && nextId == old(nextId)
      ensures Normalize(note) != [] ==>
        && rows == old(rows) + [NoteRow(old(nextId), characterId, Normalize(note), createdAt)]
        && nextId == old(nextId) + 1
        && IdsBelow(old(rows), rows[|rows| - 1].id)
      ensures Normalize(note) != [] ==> forall k :: k >= 1 ==>
        GetNotes(characterId, k) != [] && GetNotes(characterId, k)[0] == (Normalize(note), createdAt)
      ensures forall c, k :: c != characterId ==> GetNotes(c, k) == old(GetNotes(c, k))
    {
      var text := Normalize(note);
      if text != [] {
        var row := NoteRow(nextId, characterId, text, createdAt);
        AppendKeepsIncreasing(rows, row);
        AppendEffects(rows, row);
        rows := rows + [row];
        nextId := nextId + 1;
      }
    }

    /** `get_notes(character_id, limit)`: the `(note, created_at)` pairs of the
        character's newest rows, at most `limit` of them (3 by default). */
    function GetNotes(characterId: int, limit: int := DefaultLimit): (r: seq<NoteEntry>)
      reads this
      ensures limit >= 0 ==> |r| <= limit
      ensures forall i :: 0 <= i < |r| ==>
        exists j :: 0 <= j < |rows| && rows[j].characterId == characterId && r[i] == (rows[j].note, rows[j].createdAt)
      ensures Valid() ==> NewestToOldest(SelectRows(rows, characterId, limit))
      ensures r == Entries(SelectRows(rows, characterId, limit))
    {
      var selected := SelectRows(rows, characterId, limit);
      assert Valid() ==> NewestToOldest(selected) by {
        if Valid() { SelectRowsProperties(rows, characterId, limit); }
      }
      assert forall i :: 0 <= i < |selected| ==> selected[i] in rows by {
        forall i | 0 <= i < |selected| ensures selected[i] in rows {
          assert selected[i] == RowsOf(rows, characterId)[i];
        }
      }
      Entries(selected)
    }
  }
}
