/** The notebook file format: a list of cells stored as `{ "cells": [ { "code", "kind" } ] }`.
    Models `NotebookSerializer` in src/client/notebook-serializer.ts. */
module NotebookSerializer {
  import opened Results
  import opened JsonValues

  datatype CellKind = Code | Markup

  /** A notebook cell: its kind, its text and its language id. */
  datatype Cell = Cell(kind: CellKind, value: string, languageId: string)

  datatype NotebookData = NotebookData(cells: seq<Cell>)

  const QueryLanguage: string := "graphql"
  const MarkupLanguage: string := "markdown"

  /** The bytes exchanged with the editor. `Encoded(j)` is the UTF-8 text of `JSON.stringify(j)`;
      encoding and parsing are taken as an exact inverse pair, so the only other outcomes of
      reading bytes are "no bytes at all" and "text that is not JSON". */
  datatype Content = Empty | NotJson | Encoded(value: Json)

  /** Everything `deserializeNotebook` can throw. */
  datatype FormatError =
    | SyntaxError          // JSON.parse rejects the text
    | NotAnObject          // the `in` operator throws a TypeError on null and primitives
    | MissingCells         // no `cells` property
    | CellsNotArray        // `cells` is not an array
    | CellValueNotString   // the editor's cell constructor refuses a non-string text
    | HasOwnPropertyNotCallable  // an element's own `hasOwnProperty` key hides the method

  /** The document a new notebook starts from. */
  function CreateNew(): (d: NotebookData)
    ensures |d.cells| == 1
    ensures d.cells[0].kind == Code && d.cells[0].value == "" && d.cells[0].languageId == QueryLanguage
  {
    NotebookData([Cell(Code, "", QueryLanguage)])
  }

  // ---------------------------------------------------------------- serialize

  /** The stored `kind` tag: markup cells are "markdown", every other cell is "code". */
  function KindTag(k: CellKind): string
  {
    if k == Markup then "markdown" else "code"
  }

  function EncodeCell(c: Cell): Json
  {
    Obj([("code", Str(c.value)), ("kind", Str(KindTag(c.kind)))])
  }

  function EncodeCells(cells: seq<Cell>): (items: seq<Json>)
    ensures |items| == |cells|
    ensures forall i :: 0 <= i < |cells| ==> items[i] == EncodeCell(cells[i])
  {
    if |cells| == 0 then [] else [EncodeCell(cells[0])] + EncodeCells(cells[1..])
  }

  /** The JSON document `{ cells }` written for a notebook. */
  function SerializeJson(d: NotebookData): (j: Json)
    ensures j.Obj? && |j.fields| == 1 && j.fields[0].0 == "cells"
    ensures j.fields[0].1.Arr? && |j.fields[0].1.items| == |d.cells|
  {
    Obj([("cells", Arr(EncodeCells(d.cells)))])
  }

  /** `serializeNotebook`: what is written is always a JSON document, and it reads back as the
      same cells with the languages their kinds imply. */
  function SerializeNotebook(d: NotebookData): (c: Content)
    ensures c.Encoded? && c.value == SerializeJson(d)
    ensures DecodeDocument(c.value) == Ok(NotebookData(ReloadedCells(d.cells)))
  {
    DecodeEncodedCells(d.cells);
    Encoded(SerializeJson(d))
  }

  // -------------------------------------------------------------- deserialize

  /** An object whose own `hasOwnProperty` key hides `Object.prototype.hasOwnProperty`: no
      parsed JSON value is a function, so calling it throws a TypeError. */
  predicate ShadowsHasOwnProperty(j: Json)
  {
    j.Obj? && HasKey(j.fields, "hasOwnProperty")
  }

  /** A stored element that survives loading: an object with own `code` and `kind` properties. */
  predicate IsCellRecord(j: Json)
  {
    j.Obj? && HasKey(j.fields, "code") && HasKey(j.fields, "kind")
  }

  /** The cell built from a record's `kind` and text: only the exact tag "code" gives a code cell. */
  function MakeCell(kind: Json, text: string): (c: Cell)
    ensures c.kind == Code <==> kind == Str("code")
    ensures c.value == text
    ensures c.languageId == (if c.kind == Code then QueryLanguage else MarkupLanguage)
  {
    if kind == Str("code") then Cell(Code, text, QueryLanguage) else Cell(Markup, text, MarkupLanguage)
  }

  /** One element of the `cells` array: dropped (`None`) unless it is a cell record. The own
      property tests throw first on an object that shadows `hasOwnProperty`. */
  function DecodeCell(j: Json): (r: Result<Option<Cell>, FormatError>)
    ensures ShadowsHasOwnProperty(j) ==> r == Err(HasOwnPropertyNotCallable)
    ensures !ShadowsHasOwnProperty(j) && !IsCellRecord(j) ==> r == Ok(None)
    ensures !ShadowsHasOwnProperty(j) && IsCellRecord(j) ==>
              (r.Ok? <==> Get(j.fields, "code").value.Str?) && (r.Ok? ==> r.value.Some?)
  {
    if ShadowsHasOwnProperty(j) then Err(HasOwnPropertyNotCallable)
    else if !IsCellRecord(j) then Ok(None)
    else
      var code := Get(j.fields, "code").value;
      var kind := Get(j.fields, "kind").value;
      if code.Str? then Ok(Some(MakeCell(kind, code.s))) else Err(CellValueNotString)
  }

  /** The cells one element contributes: none if it is dropped, one if it is a record. */
  function Survivors(j: Json): (r: Result<seq<Cell>, FormatError>)
    ensures !ShadowsHasOwnProperty(j) && !IsCellRecord(j) ==> r == Ok([])
    ensures r.Ok? ==> |r.value| <= 1
  {
    match DecodeCell(j)
    case Err(e) => Err(e)
    case Ok(None) => Ok([])
    case Ok(Some(c)) => Ok([c])
  }

  /** Two decoded parts one after the other: the first error wins. */
  function Join(x: Result<seq<Cell>, FormatError>, y: Result<seq<Cell>, FormatError>): Result<seq<Cell>, FormatError>
  {
    if x.Err? then Err(x.error) else if y.Err? then Err(y.error) else Ok(x.value + y.value)
  }

  /** Decodes every element, left to right, keeping the survivors in order. */
  function DecodeCells(items: seq<Json>): (r: Result<seq<Cell>, FormatError>)
    ensures r.Ok? ==> |r.value| <= |items|
  {
    if |items| == 0 then Ok([]) else Join(Survivors(items[0]), DecodeCells(items[1..]))
  }

  /** Reads a parsed document. */
  function DecodeDocument(data: Json): (r: Result<NotebookData, FormatError>)
    ensures !(data.Obj? || data.Arr?) ==> r == Err(NotAnObject)
    ensures data.Arr? ==> r == Err(MissingCells)
    ensures data.Obj? && !HasKey(data.fields, "cells") ==> r == Err(MissingCells)
    ensures data.Obj? && HasKey(data.fields, "cells") && !Get(data.fields, "cells").value.Arr?
            ==> r == Err(CellsNotArray)
    ensures r.Ok? ==> data.Obj? && Get(data.fields, "cells").Some? && Get(data.fields, "cells").value.Arr?
                      && DecodeCells(Get(data.fields, "cells").value.items) == Ok(r.value.cells)
  {
    match data
    case Obj(fields) =>
      (match Get(fields, "cells")
       case None => Err(MissingCells)
       case Some(cells) =>
         if !cells.Arr? then Err(CellsNotArray)
         else
           match DecodeCells(cells.items)
           case Err(e) => Err(e)
           case Ok(cs) => Ok(NotebookData(cs)))
    case Arr(_) => Err(MissingCells)
    case _ => Err(NotAnObject)
  }

  /** `deserializeNotebook`: empty input reads as the serialized new notebook. */
  function DeserializeNotebook(content: Content): (r: Result<NotebookData, FormatError>)
    ensures content == NotJson ==> r == Err(SyntaxError)
    ensures content.Encoded? ==> r == DecodeDocument(content.value)
  {
    match content
    case Empty => DecodeDocument(SerializeJson(CreateNew()))
    case NotJson => Err(SyntaxError)
    case Encoded(data) => DecodeDocument(data)
  }

  // --------------------------------------------------------------- properties

  /** Serializing writes one `{code, kind}` record per cell, in cell order. */
  lemma SerializedCellRecords(d: NotebookData)
    ensures SerializeJson(d).fields == [("cells", Arr(EncodeCells(d.cells)))]
    ensures forall i :: 0 <= i < |d.cells| ==>
              var rec := EncodeCells(d.cells)[i];
              && rec.Obj?
              && Get(rec.fields, "code") == Some(Str(d.cells[i].value))
              && (Get(rec.fields, "kind") == Some(Str("markdown")) <==> d.cells[i].kind == Markup)
              && (Get(rec.fields, "kind") == Some(Str("code")) <==> d.cells[i].kind == Code)
  {
    forall i | 0 <= i < |d.cells|
      ensures var rec := EncodeCells(d.cells)[i];
              && Get(rec.fields, "code") == Some(Str(d.cells[i].value))
              && Get(rec.fields, "kind") == Some(Str(KindTag(d.cells[i].kind)))
    {
      EncodedCellFields(d.cells[i]);
    }
  }

  lemma EncodedCellFields(c: Cell)
    ensures Get(EncodeCell(c).fields, "code") == Some(Str(c.value))
    ensures Get(EncodeCell(c).fields, "kind") == Some(Str(KindTag(c.kind)))
  {
    var fields := EncodeCell(c).fields;
    assert fields[0].0 == "code" && fields[1].0 == "kind";
    assert Get(fields[..1], "code") == Some(Str(c.value));
  }

  /** A cell as it reads back after a save: kind and text kept, language fixed by the kind. */
  function Reloaded(c: Cell): Cell
  {
    Cell(c.kind, c.value, if c.kind == Code then QueryLanguage else MarkupLanguage)
  }

  function ReloadedCells(cells: seq<Cell>): (r: seq<Cell>)
    ensures |r| == |cells|
  {
    if |cells| == 0 then [] else [Reloaded(cells[0])] + ReloadedCells(cells[1..])
  }

  lemma DecodeEncodedCell(c: Cell)
    ensures DecodeCell(EncodeCell(c)) == Ok(Some(Reloaded(c)))
  {
    var fields := EncodeCell(c).fields;
    assert fields[0].0 == "code" && fields[1].0 == "kind";
    assert Get(fields, "kind") == Some(Str(KindTag(c.kind)));
    assert Get(fields[..1], "code") == Some(Str(c.value));
  }

  lemma {:induction false} DecodeEncodedCells(cells: seq<Cell>)
    ensures DecodeCells(EncodeCells(cells)) == Ok(ReloadedCells(cells))
    decreases |cells|
  {
    if |cells| > 0 {
      var items := EncodeCells(cells);
      assert items[0] == EncodeCell(cells[0]);
      assert items[1..] == EncodeCells(cells[1..]);
      DecodeEncodedCell(cells[0]);
      DecodeEncodedCells(cells[1..]);
    }
  }

  /** Round trip: reading back a saved notebook keeps the number of cells, their order, texts
      and kinds; the language becomes the one the kind implies. */
  lemma RoundTrip(d: NotebookData)
    ensures DeserializeNotebook(SerializeNotebook(d)).Ok?
    ensures var e := DeserializeNotebook(SerializeNotebook(d)).value.cells;
            && |e| == |d.cells|
            && forall i :: 0 <= i < |d.cells| ==>
                 e[i].kind == d.cells[i].kind && e[i].value == d.cells[i].value
                 && e[i].languageId == (if d.cells[i].kind == Code then QueryLanguage else MarkupLanguage)
  {
    DecodeEncodedCells(d.cells);
    ReloadedCellsIndex(d.cells);
  }

  lemma {:induction false} ReloadedCellsIndex(cells: seq<Cell>)
    ensures forall i :: 0 <= i < |cells| ==> ReloadedCells(cells)[i] == Reloaded(cells[i])
    decreases |cells|
  {
    if |cells| > 0 {
      ReloadedCellsIndex(cells[1..]);
    }
  }

  /** Saving a notebook that was just loaded writes the same document again. */
  lemma {:induction false} SaveAfterLoadIsStable(d: NotebookData)
    ensures DeserializeNotebook(SerializeNotebook(d)).Ok?
    ensures SerializeNotebook(DeserializeNotebook(SerializeNotebook(d)).value) == SerializeNotebook(d)
  {
    DecodeEncodedCells(d.cells);
    EncodeReloaded(d.cells);
  }

  lemma {:induction false} EncodeReloaded(cells: seq<Cell>)
    ensures EncodeCells(ReloadedCells(cells)) == EncodeCells(cells)
    decreases |cells|
  {
    if |cells| > 0 {
      EncodeReloaded(cells[1..]);
      assert ReloadedCells(cells)[1..] == ReloadedCells(cells[1..]);
    }
  }

  /** Empty input loads exactly as the serialized new notebook: one empty code cell in `graphql`. */
  lemma EmptyContentIsNewNotebook()
    ensures DeserializeNotebook(Empty) == Ok(CreateNew())
  {
    var cells := CreateNew().cells;
    DecodeEncodedCells(cells);
    assert ReloadedCells(cells) == [Reloaded(cells[0])] + ReloadedCells([]);
    assert ReloadedCells(cells) == cells;
    var doc := SerializeJson(CreateNew());
    assert Get(doc.fields, "cells") == Some(Arr(EncodeCells(cells)));
  }

  lemma JoinAssociative(x: Result<seq<Cell>, FormatError>, y: Result<seq<Cell>, FormatError>, z: Result<seq<Cell>, FormatError>)
    ensures Join(Join(x, y), z) == Join(x, Join(y, z))
  {
    if x.Ok? && y.Ok? && z.Ok? {
      assert (x.value + y.value) + z.value == x.value + (y.value + z.value);
    }
  }

  /** Loading a list of elements is loading each part and joining the survivors:
      the first error wins, otherwise relative order is kept. */
  lemma {:induction false} DecodeCellsAppend(a: seq<Json>, b: seq<Json>)
    ensures DecodeCells(a + b) == Join(DecodeCells(a), DecodeCells(b))
    decreases |a|
  {
    if |a| == 0 {
      assert a + b == b;
      if DecodeCells(b).Ok? {
        assert [] + DecodeCells(b).value == DecodeCells(b).value;
      }
    } else {
      assert (a + b)[0] == a[0];
      assert (a + b)[1..] == a[1..] + b;
      DecodeCellsAppend(a[1..], b);
      JoinAssociative(Survivors(a[0]), DecodeCells(a[1..]), DecodeCells(b));
    }
  }

  /** An element that is not a cell record, and does not hide `hasOwnProperty`, is skipped
      without error, wherever it stands. */
  lemma DroppedElementIsInvisible(before: seq<Json>, j: Json, after: seq<Json>)
    requires !IsCellRecord(j) && !ShadowsHasOwnProperty(j)
    ensures DecodeCells(before + [j] + after) == DecodeCells(before + after)
  {
    DecodeCellsAppend(before + [j], after);
    DecodeCellsAppend(before, [j]);
    DecodeCellsAppend(before, after);
    assert DecodeCells([j]) == Ok([]) by {
      assert [j][1..] == [];
    }
    if DecodeCells(before).Ok? {
      assert DecodeCells(before).value + [] == DecodeCells(before).value;
    }
  }

  /** A well-formed record in the middle of the array always yields a cell of its own. */
  lemma CellRecordSurvives(j: Json, s: string)
    requires j.Obj? && Get(j.fields, "code") == Some(Str(s)) && HasKey(j.fields, "kind")
    requires !HasKey(j.fields, "hasOwnProperty")
    ensures DecodeCells([j]) == Ok([MakeCell(Get(j.fields, "kind").value, s)])
  {
    assert IsCellRecord(j);
    var c := MakeCell(Get(j.fields, "kind").value, s);
    assert DecodeCell(j) == Ok(Some(c));
    assert [j][1..] == [];
    assert [c] + [] == [c];
  }

  /** An object with its own `hasOwnProperty` key makes loading throw, record or not, unless an
      earlier element already threw. */
  lemma ShadowedHasOwnPropertyThrows(before: seq<Json>, j: Json, after: seq<Json>)
    requires ShadowsHasOwnProperty(j) && DecodeCells(before).Ok?
    ensures DecodeCells(before + [j] + after) == Err(HasOwnPropertyNotCallable)
  {
    DecodeCellsAppend(before + [j], after);
    DecodeCellsAppend(before, [j]);
    assert DecodeCells([j]) == Err(HasOwnPropertyNotCallable);
  }
}
