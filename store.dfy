/** The relational store the repositories talk to, as values: one field per table,
    and the meaning of the SQL statements that need more than a one-line update.

    Tables that are scanned or ordered are sequences of rows in storage order with
    unique ids; the vote table is a map on its composite key; the many-to-many
    link table is a set of pairs. */
module Store {
  import opened Wrappers
  import opened Catalogo

  /** A row of table `comentarios`. Ids come from AUTO_INCREMENT and are natural numbers. */
  datatype ComentarioRow = ComentarioRow(
    id: nat,
    dinosaurioId: int,
    usuarioId: int,
    contenido: string,
    fechaCreacion: int,
    comentarioPadreId: Option<int>,
    fechaModificacion: Option<int>)

  /** The key of table `comentario_votos`: (comentario_id, usuario_id). */
  type VotoKey = (int, int)

  /** The error MySQL raises when a row names a parent comment that does not exist. */
  const ErrorClaveForanea := "Cannot add or update a child row: a foreign key constraint fails"

  /** The ids of the rows of `rows`. */
  function Ids(rows: seq<ComentarioRow>): set<int> {
    set r | r in rows :: r.id
  }

  /** Some row of `rows` has the id `id`. */
  predicate ExisteComentario(rows: seq<ComentarioRow>, id: int) {
    exists r :: r in rows && r.id == id
  }

  /** Ids strictly increase along the storage order. */
  ghost predicate IdsCrecientes(rows: seq<ComentarioRow>) {
    forall i, j :: 0 <= i < j < |rows| ==> rows[i].id < rows[j].id
  }

  /** The state the comment table is always in: rows in id order, and the foreign
      key on `comentario_padre_id` satisfied by an older row. */
  ghost predicate ComentariosIntegros(rows: seq<ComentarioRow>) {
    && IdsCrecientes(rows)
    && forall r :: r in rows && r.comentarioPadreId.Some? ==>
         r.comentarioPadreId.value < r.id && ExisteComentario(rows, r.comentarioPadreId.value)
  }

  /** Row `r` is comment `id` or a reply to it, at any depth. */
  ghost predicate Desciende(rows: seq<ComentarioRow>, r: ComentarioRow, id: int)
    decreases r.id
  {
    || r.id == id
    || (&& r.comentarioPadreId.Some?
        && r.comentarioPadreId.value < r.id
        && exists q :: q in rows && q.id == r.comentarioPadreId.value && Desciende(rows, q, id))
  }

  /** In a table in id order the id is a key: two rows with one id are the same row. */
  lemma IdUnico(rows: seq<ComentarioRow>, a: ComentarioRow, b: ComentarioRow)
    requires IdsCrecientes(rows) && a in rows && b in rows && a.id == b.id
    ensures a == b
  {
    var i :| 0 <= i < |rows| && rows[i] == a;
    var j :| 0 <= j < |rows| && rows[j] == b;
    assert i == j;
  }

  /** In a table in id order, the first row has the smallest id and the rest is in order. */
  lemma CabezaMenor(rows: seq<ComentarioRow>)
    requires IdsCrecientes(rows) && rows != []
    ensures IdsCrecientes(rows[1..])
    ensures forall r :: r in rows[1..] ==> rows[0].id < r.id
  {
    forall r | r in rows[1..] ensures rows[0].id < r.id {
      var k :| 0 <= k < |rows[1..]| && rows[1..][k] == r;
      assert rows[k + 1] == r;
    }
  }

  /** The ids `DELETE FROM comentarios WHERE id = %s` removes when the parent foreign
      key cascades: one pass in storage order, which meets every parent before its
      replies. */
  function Borrados(rows: seq<ComentarioRow>, id: int): (d: set<int>)
    ensures d <= Ids(rows)
  {
    if rows == [] then {}
    else
      var previos := Borrados(rows[..|rows| - 1], id);
      var r := rows[|rows| - 1];
      assert rows == rows[..|rows| - 1] + [r];
      assert Ids(rows[..|rows| - 1]) <= Ids(rows);
      if r.id == id || (r.comentarioPadreId.Some? && r.comentarioPadreId.value in previos)
      then previos + {r.id}
      else previos
  }

  /** The rows whose id is not in `quitar`, in storage order. */
  function Conservar(rows: seq<ComentarioRow>, quitar: set<int>): (r: seq<ComentarioRow>)
    ensures forall x :: x in r <==> x in rows && x.id !in quitar
  {
    if rows == [] then []
    else
      var resto := Conservar(rows[1..], quitar);
      assert rows == [rows[0]] + rows[1..];
      if rows[0].id in quitar then resto else [rows[0]] + resto
  }

  /** A row older than every row of an ordered table can go in front of it. */
  lemma AnteponerCreciente(h: ComentarioRow, rows: seq<ComentarioRow>)
    requires IdsCrecientes(rows) && forall r :: r in rows ==> h.id < r.id
    ensures IdsCrecientes([h] + rows)
  {
    var s := [h] + rows;
    forall i, j | 0 <= i < j < |s| ensures s[i].id < s[j].id {
      assert s[j] == rows[j - 1];
      if i > 0 {
        assert s[i] == rows[i - 1];
      } else {
        assert s[j] in rows;
      }
    }
  }

  /** Dropping rows keeps the storage order by id. */
  lemma {:induction false} ConservarCreciente(rows: seq<ComentarioRow>, quitar: set<int>)
    requires IdsCrecientes(rows)
    ensures IdsCrecientes(Conservar(rows, quitar))
  {
    if rows != [] {
      CabezaMenor(rows);
      ConservarCreciente(rows[1..], quitar);
      if rows[0].id !in quitar {
        AnteponerCreciente(rows[0], Conservar(rows[1..], quitar));
      }
    }
  }

  /** The table after deleting comment `id` with the cascade. */
  function BorrarEnCascada(rows: seq<ComentarioRow>, id: int): seq<ComentarioRow> {
    Conservar(rows, Borrados(rows, id))
  }

  /** Dropping the newest row leaves an intact table. */
  lemma IntegrosPrefijo(rows: seq<ComentarioRow>)
    requires ComentariosIntegros(rows) && rows != []
    ensures ComentariosIntegros(rows[..|rows| - 1])
  {
    var n := |rows| - 1;
    var p := rows[..n];
    forall r | r in p && r.comentarioPadreId.Some?
      ensures ExisteComentario(p, r.comentarioPadreId.value)
    {
      var k :| 0 <= k < n && p[k] == r;
      var q :| q in rows && q.id == r.comentarioPadreId.value;
      var m :| 0 <= m < |rows| && rows[m] == q;
      assert m < k;
      assert p[m] == q;
    }
  }

  /** Whether an older row descends from `id` does not depend on the newest row. */
  lemma {:induction false} DesciendePrefijo(rows: seq<ComentarioRow>, r: ComentarioRow, id: int)
    requires ComentariosIntegros(rows) && rows != []
    requires r in rows[..|rows| - 1]
    ensures Desciende(rows, r, id) <==> Desciende(rows[..|rows| - 1], r, id)
    decreases r.id
  {
    var n := |rows| - 1;
    var p := rows[..n];
    if r.id != id && r.comentarioPadreId.Some? {
      var padre := r.comentarioPadreId.value;
      var q :| q in rows && q.id == padre;
      var k :| 0 <= k < n && p[k] == r;
      assert padre < r.id < rows[n].id;
      assert q in p;
      assert forall q' :: q' in rows && q'.id == padre ==> q' == q by {
        forall q' | q' in rows && q'.id == padre ensures q' == q {
          var a :| 0 <= a < |rows| && rows[a] == q';
          var b :| 0 <= b < |rows| && rows[b] == q;
          assert a == b;
        }
      }
      assert forall q' :: q' in p ==> q' in rows;
      DesciendePrefijo(rows, q, id);
    }
  }

  /** In a table in id order, the rows with an id below the newest row's are exactly
      the older rows. */
  lemma UltimoMayor(rows: seq<ComentarioRow>)
    requires IdsCrecientes(rows) && rows != []
    ensures forall q :: q in rows && q.id < rows[|rows| - 1].id <==> q in rows[..|rows| - 1]
  {
    var n := |rows| - 1;
    forall q ensures q in rows && q.id < rows[n].id <==> q in rows[..n] {
      if q in rows[..n] {
        var k :| 0 <= k < n && rows[..n][k] == q;
        assert rows[k] == q;
      }
      if q in rows && q.id < rows[n].id {
        var k :| 0 <= k < |rows| && rows[k] == q;
        assert rows[..n][k] == q;
      }
    }
  }

  /** The newest row is removed exactly when it descends from `id`, given that the
      older rows are. */
  lemma UltimoBorrado(rows: seq<ComentarioRow>, id: int)
    requires ComentariosIntegros(rows) && rows != []
    requires forall r :: r in rows[..|rows| - 1] ==>
      (r.id in Borrados(rows[..|rows| - 1], id) <==> Desciende(rows[..|rows| - 1], r, id))
    ensures rows[|rows| - 1].id in Borrados(rows, id) <==> Desciende(rows, rows[|rows| - 1], id)
  {
    var n := |rows| - 1;
    var p := rows[..n];
    var last := rows[n];
    assert rows == p + [last];
    IntegrosPrefijo(rows);
    if last.id != id && last.comentarioPadreId.Some? {
      var padre := last.comentarioPadreId.value;
      if padre in Borrados(p, id) {
        assert padre in Ids(p);
        var q :| q in p && q.id == padre;
        DesciendePrefijo(rows, q, id);
        assert q in rows;
      }
      if Desciende(rows, last, id) {
        var q :| q in rows && q.id == padre && Desciende(rows, q, id);
        UltimoMayor(rows);
        DesciendePrefijo(rows, q, id);
      }
    }
  }

  /** The one-pass cascade removes exactly the comment and its replies at every depth. */
  lemma {:induction false} BorradosSonDescendientes(rows: seq<ComentarioRow>, id: int)
    requires ComentariosIntegros(rows)
    ensures forall r :: r in rows ==> (r.id in Borrados(rows, id) <==> Desciende(rows, r, id))
  {
    if rows != [] {
      var n := |rows| - 1;
      var p := rows[..n];
      var last := rows[n];
      assert rows == p + [last];
      IntegrosPrefijo(rows);
      BorradosSonDescendientes(p, id);
      UltimoBorrado(rows, id);
      forall r | r in rows
        ensures r.id in Borrados(rows, id) <==> Desciende(rows, r, id)
      {
        if r in p {
          PrevioBorrado(rows, r, id);
        }
      }
    }
  }

  /** An older row is removed exactly when it was removed from the older rows and,
      given that this matched descent there, exactly when it descends from `id`. */
  lemma PrevioBorrado(rows: seq<ComentarioRow>, r: ComentarioRow, id: int)
    requires ComentariosIntegros(rows) && rows != []
    requires r in rows[..|rows| - 1]
    requires r.id in Borrados(rows[..|rows| - 1], id) <==> Desciende(rows[..|rows| - 1], r, id)
    ensures r.id in Borrados(rows, id) <==> Desciende(rows, r, id)
  {
    var n := |rows| - 1;
    var p := rows[..n];
    var k :| 0 <= k < n && p[k] == r;
    assert rows[k] == r;
    assert r.id != rows[n].id;
    assert Borrados(rows, id) == Borrados(p, id) || Borrados(rows, id) == Borrados(p, id) + {rows[n].id};
    DesciendePrefijo(rows, r, id);
  }

  /** Deleting with the cascade keeps exactly the rows that do not descend from
      the deleted comment, and leaves the table intact: no reply is orphaned. */
  lemma BorrarEnCascadaCorrecto(rows: seq<ComentarioRow>, id: int)
    requires ComentariosIntegros(rows)
    ensures forall r :: r in BorrarEnCascada(rows, id) <==> r in rows && !Desciende(rows, r, id)
    ensures ComentariosIntegros(BorrarEnCascada(rows, id))
  {
    BorradosSonDescendientes(rows, id);
    ConservarCreciente(rows, Borrados(rows, id));
    var quedan := BorrarEnCascada(rows, id);
    forall r | r in quedan && r.comentarioPadreId.Some?
      ensures ExisteComentario(quedan, r.comentarioPadreId.value)
    {
      var q :| q in rows && q.id == r.comentarioPadreId.value;
      assert Desciende(rows, q, id) ==> Desciende(rows, r, id);
      assert q in quedan;
    }
  }

  /** The database: one field per table. */
  class Database {
    var comentarios: seq<ComentarioRow>
    /** The next AUTO_INCREMENT value of `comentarios`. */
    var siguienteComentarioId: nat
    var votos: map<VotoKey, string>
    /** `usuarios.id` to `usuarios.username`: the part of `usuarios` the comment queries join. */
    var usuarios: map<int, string>
    var dinosaurios: seq<Dinosaurio>
    var siguienteDinosaurioId: int
    /** Table `dinosaurios_habitats`: (dinosaurio_id, habitat_id) pairs. */
    var dinosauriosHabitats: set<(int, int)>
    var habitats: seq<Habitat>
    var siguienteHabitatId: int
    var regiones: seq<Region>
    var siguienteRegionId: int
    var eras: seq<Era>
    var siguienteEraId: int

    /** The comment table is intact and every id is below the AUTO_INCREMENT counter. */
    ghost predicate ComentariosValidos()
      reads this
    {
      && ComentariosIntegros(comentarios)
      && forall r :: r in comentarios ==> r.id < siguienteComentarioId
    }

    /** Every catalog id is below its table's AUTO_INCREMENT counter, so the next
        insert gets a fresh key. */
    ghost predicate DinosauriosValidos()
      reads this
    {
      forall d :: d in dinosaurios ==> d.id < siguienteDinosaurioId
    }

    ghost predicate HabitatsValidos()
      reads this
    {
      forall h :: h in habitats ==> h.id < siguienteHabitatId
    }

    ghost predicate RegionesValidas()
      reads this
    {
      forall r :: r in regiones ==> r.id < siguienteRegionId
    }

    ghost predicate ErasValidas()
      reads this
    {
      forall e :: e in eras ==> e.id < siguienteEraId
    }

    /** An empty database. */
    constructor ()
      ensures ComentariosValidos()
      ensures DinosauriosValidos() && HabitatsValidos() && RegionesValidas() && ErasValidas()
      ensures comentarios == [] && votos == map[] && usuarios == map[]
      ensures dinosaurios == [] && dinosauriosHabitats == {} && habitats == []
      ensures regiones == [] && eras == []
    {
      comentarios, siguienteComentarioId := [], 1;
      votos, usuarios := map[], map[];
      dinosaurios, siguienteDinosaurioId := [], 1;
      dinosauriosHabitats := {};
      habitats, siguienteHabitatId := [], 1;
      regiones, siguienteRegionId := [], 1;
      eras, siguienteEraId := [], 1;
    }
  }
}
