/** The name maps of the solver (dlx.h:51-52): `rows` sends a row name to
    the first cell added for it, `columns` a column name to its header.
    Every cell carries the name of its row. */
module Names {
  import opened Fabric
  import opened Matrix
  import opened Build

  /** The maps agree with the matrix: the node of a row name is the first
      cell of its row ring and is named by it; every cell is named by a row
      whose node lies in the same ring; every column name leads to a header. */
  ghost predicate NamesOK<Row, Col>(rows: map<Row, nat>, columns: map<Col, nat>, name: seq<Row>, A: Shape)
  {
    && (forall row | row in rows ::
          && RowIndexed(A, rows[row]) && A.rows[A.rowOf[rows[row]]][0] == rows[row]
          && rows[row] < |name| && name[rows[row]] == row)
    && CellsNamed(rows, name, A.rowOf)
    && (forall col | col in columns :: columns[col] in A.cols && columns[col] < |name|)
  }

  /** Every cell is named by a row whose node lies in the same ring. */
  ghost predicate CellsNamed<Row>(rows: map<Row, nat>, name: seq<Row>, rowOf: map<nat, nat>)
  {
    forall x | x in rowOf ::
      && x < |name| && name[x] in rows && rows[name[x]] in rowOf
      && rowOf[rows[name[x]]] == rowOf[x]
  }

  /** Only the rows and the set of headers matter: covering, uncovering and
      `optional` keep the maps valid. */
  lemma NamesKept<Row, Col>(rows: map<Row, nat>, columns: map<Col, nat>, name: seq<Row>, A: Shape, B: Shape)
    requires NamesOK(rows, columns, name, A)
    requires B.rows == A.rows && B.rowOf == A.rowOf && B.cols.Keys == A.cols.Keys
    ensures NamesOK(rows, columns, name, B)
  {
    forall col | col in columns ensures columns[col] in B.cols && columns[col] < |name| {
      assert columns[col] in A.cols.Keys;
    }
  }

  /** `columns[col] = new Node()` for a column name not seen before: the
      name leads to the new header |name|, named blank. */
  lemma NamesNewColumn<Row, Col>(rows: map<Row, nat>, columns: map<Col, nat>, name: seq<Row>, A: Shape,
                                 col: Col, blank: Row, B: Shape)
    requires NamesOK(rows, columns, name, A)
    requires B.rows == A.rows && B.rowOf == A.rowOf && B.cols.Keys == A.cols.Keys + {|name|}
    ensures NamesOK(rows, columns[col := |name|], name + [blank], B)
  {
    var name' := name + [blank];
    forall row | row in rows ensures name'[rows[row]] == row {
      assert name'[rows[row]] == name[rows[row]];
    }
    forall x | x in A.rowOf ensures x < |name'| && name'[x] == name[x] {
    }
    forall col' | col' in columns ensures columns[col'] in B.cols {
      assert columns[col'] in A.cols.Keys;
    }
    assert |name| in B.cols.Keys;
  }

  /** `add(row, col)` with the new cell x named row: the row name keeps its
      node or gets x, the column name keeps its header or gets the new one. */
  lemma NamesAdd<Row, Col>(rows: map<Row, nat>, columns: map<Col, nat>, name: seq<Row>, A: Shape,
                           row: Row, col: Col, blank: Row, r: nat, newCol: bool, c: nat)
    requires NamesOK(rows, columns, name, A) && forall y | y in A.rowOf :: y < |name|
    requires r == (if row in rows then rows[row] else |name|)
    requires newCol <==> col !in columns
    requires !newCol ==> c == columns[col]
    ensures r != |name| ==> r in A.rowOf && A.rowOf[r] < |A.rows|
    ensures !newCol ==> c in A.cols
    ensures var x := |name|;
            NamesOK(rows[row := r], columns[col := AddTarget(x, newCol, c)],
                    name + [row] + (if newCol then [blank] else []), AddShape(A, x, r, newCol, c))
  {
    var x := |name|;
    var B := AddShape(A, x, r, newCol, c);
    var name' := name + [row] + (if newCol then [blank] else []);
    AddRowNames(rows, name, A, row, r, B, name');
    AddCellNames(rows, name, A, row, r, B, name');
  }

  /** `add(row, col)` keeps the matrix invariant, leaves the matrix clean
      and keeps the name maps valid, given what the name lookups found
      (r: the row's node, or the new cell x; c: the column's header, or the
      new header x + 1) and provided the row has no cell in the column yet. */
  lemma AddKeeps<Row, Col>(f: Links, A: Shape, g: Links, rows: map<Row, nat>, columns: map<Col, nat>, name: seq<Row>,
                           row: Row, col: Col, blank: Row, r: nat, newCol: bool, c: nat)
    requires Dancing(f, A) && Clean(f, A) && NamesOK(rows, columns, name, A) && |name| == |f.L|
    requires r == (if row in rows then rows[row] else |f.L|)
    requires (newCol <==> col !in columns) && c == (if newCol then |f.L| + 1 else columns[col])
    requires Added(f, g, r, newCol, c)
    requires !newCol && row in rows && RowIndexed(A, r) ==> forall y | y in A.rows[A.rowOf[r]] && y < |f.col| :: f.col[y] != c
    ensures r != |f.L| ==> r in A.rowOf && A.rowOf[r] < |A.rows|
    ensures !newCol ==> c in A.cols
    ensures var B, name' := AddShape(A, |f.L|, r, newCol, c), name + [row] + (if newCol then [blank] else []);
            && Dancing(g, B) && Clean(g, B) && |name'| == |g.L|
            && NamesOK(rows[row := r], columns[col := c], name', B)
  {
    NamesAdd(rows, columns, name, A, row, col, blank, r, newCol, c);
    assert AddTarget(|name|, newCol, c) == c;
    AddDancing(f, A, r, newCol, c, g);
  }

  /** The node of every row name after `add` heads its ring in B and is named by it. */
  lemma AddRowNames<Row>(rows: map<Row, nat>, name: seq<Row>, A: Shape, row: Row, r: nat, B: Shape, name': seq<Row>)
    requires forall row | row in rows ::
               && RowIndexed(A, rows[row]) && A.rows[A.rowOf[rows[row]]][0] == rows[row]
               && rows[row] < |name| && name[rows[row]] == row
    requires r == (if row in rows then rows[row] else |name|)
    requires r != |name| ==> r in A.rowOf && A.rowOf[r] < |A.rows|
    requires B.rows == GrowRows(A, |name|, r) && B.rowOf == A.rowOf[|name| := if r == |name| then |A.rows| else A.rowOf[r]]
    requires |name'| > |name| && name'[..|name|] == name && name'[|name|] == row
    ensures var rows' := rows[row := r];
            forall row' | row' in rows' ::
              && RowIndexed(B, rows'[row']) && B.rows[B.rowOf[rows'[row']]][0] == rows'[row']
              && rows'[row'] < |name'| && name'[rows'[row']] == row'
  {
    var x := |name|;
    var rows' := rows[row := r];
    forall row' | row' in rows'
      ensures RowIndexed(B, rows'[row']) && B.rows[B.rowOf[rows'[row']]][0] == rows'[row']
      ensures rows'[row'] < |name'| && name'[rows'[row']] == row'
    {
      if row' != row || row in rows {
        var y := rows[row'];
        assert rows'[row'] == y && RowIndexed(A, y) && y < x;
        var i := A.rowOf[y];
        assert B.rowOf[y] == i;
        if r != x && i == A.rowOf[r] {
          assert B.rows[i] == A.rows[i] + [x];
        } else {
          assert B.rows[i] == A.rows[i];
        }
        assert name'[y] == name[y];
      } else {
        assert B.rows[B.rowOf[x]] == [x];
      }
    }
  }

  /** Every cell is still named by a row whose node lies in its ring. */
  lemma AddCellNames<Row>(rows: map<Row, nat>, name: seq<Row>, A: Shape, row: Row, r: nat, B: Shape, name': seq<Row>)
    requires forall row | row in rows :: rows[row] in A.rowOf && rows[row] < |name|
    requires CellsNamed(rows, name, A.rowOf)
    requires r == (if row in rows then rows[row] else |name|)
    requires B.rowOf == A.rowOf[|name| := if r == |name| then |A.rows| else A.rowOf[r]]
    requires |name'| > |name| && name'[..|name|] == name && name'[|name|] == row
    ensures CellsNamed(rows[row := r], name', B.rowOf)
  {
    var x := |name|;
    var rows' := rows[row := r];
    forall y | y in B.rowOf
      ensures y < |name'| && name'[y] in rows' && rows'[name'[y]] in B.rowOf
      ensures B.rowOf[rows'[name'[y]]] == B.rowOf[y]
    {
      if y != x {
        assert name'[y] == name[y];
      }
    }
  }
}
