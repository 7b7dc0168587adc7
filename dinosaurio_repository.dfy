/** data/dinosaurio_repository.py: the dinosaur catalog, its filtered listing and the
    many-to-many links between dinosaurs and habitats. */
module DinosaurioRepositorio {
  import opened Wrappers
  import opened Text
  import opened Sorting
  import opened Tables
  import opened Catalogo
  import opened Consultas
  import opened Store

  /** One `AND` clause that `get_all` appends to its `WHERE 1=1`, with its parameters. */
  datatype Condicion =
    | Busqueda(texto: string)
    | EraIgual(eraId: int)
    | RegionIgual(regionId: int)
    | DietaIgual(dieta: string)

  /** Whether the row `d` satisfies the clause `c`. */
  predicate Cumple(c: Condicion, d: Dinosaurio) {
    match c
    case Busqueda(t) => Contains(d.nombre, t) || Como(d.descripcion, t)
    case EraIgual(e) => d.eraId == Some(e)
    case RegionIgual(r) => d.regionId == Some(r)
    case DietaIgual(x) => d.dieta == Some(x)
  }

  /** `WHERE 1=1 AND ...`: every clause holds. */
  predicate CumpleTodas(conds: seq<Condicion>, d: Dinosaurio) {
    forall i :: 0 <= i < |conds| ==> Cumple(conds[i], d)
  }

  /** The clauses `get_all` appends for the given filters, in the order it appends them. */
  function Condiciones(busqueda: Option<string>, eraId: Option<int>, regionId: Option<int>,
                       dieta: Option<string>): seq<Condicion>
  {
    (if TextoVerdadero(busqueda) then [Busqueda(busqueda.value)] else [])
    + (if EnteroVerdadero(eraId) then [EraIgual(eraId.value)] else [])
    + (if EnteroVerdadero(regionId) then [RegionIgual(regionId.value)] else [])
    + (if TextoVerdadero(dieta) then [DietaIgual(dieta.value)] else [])
  }

  /** The filters as the listing page means them: each one that is given (truthy)
      must hold, and they hold together. */
  predicate Coincide(d: Dinosaurio, busqueda: Option<string>, eraId: Option<int>,
                     regionId: Option<int>, dieta: Option<string>)
  {
    && (TextoVerdadero(busqueda) ==> Contains(d.nombre, busqueda.value) || Como(d.descripcion, busqueda.value))
    && (EnteroVerdadero(eraId) ==> d.eraId == eraId)
    && (EnteroVerdadero(regionId) ==> d.regionId == regionId)
    && (TextoVerdadero(dieta) ==> d.dieta == dieta)
  }

  /** `ORDER BY nombre`. */
  predicate NombreLe(a: Dinosaurio, b: Dinosaurio) {
    LexLe(a.nombre, b.nombre)
  }

  /** The rows a query with clauses `conds` returns, in the order it returns them. */
  function Consulta(rows: seq<Dinosaurio>, conds: seq<Condicion>): (r: seq<Dinosaurio>)
    ensures |r| <= |rows|
  {
    SortBy(Filter(rows, (d: Dinosaurio) => CumpleTodas(conds, d)), NombreLe)
  }

  /** What `get_all` returns for the given filters. */
  function Seleccion(rows: seq<Dinosaurio>, busqueda: Option<string>, eraId: Option<int>,
                     regionId: Option<int>, dieta: Option<string>): seq<Dinosaurio>
  {
    Consulta(rows, Condiciones(busqueda, eraId, regionId, dieta))
  }

  /** `get_all`: grows the query clause by clause, runs it, and copies the rows out. */
  method GetAll(db: Database, busqueda: Option<string>, eraId: Option<int>,
                regionId: Option<int>, dieta: Option<string>) returns (r: seq<Dinosaurio>)
    ensures r == Seleccion(db.dinosaurios, busqueda, eraId, regionId, dieta)
  {
    var conds: seq<Condicion> := [];
    conds := conds + if TextoVerdadero(busqueda) then [Busqueda(busqueda.value)] else [];
    conds := conds + if EnteroVerdadero(eraId) then [EraIgual(eraId.value)] else [];
    conds := conds + if EnteroVerdadero(regionId) then [RegionIgual(regionId.value)] else [];
    conds := conds + if TextoVerdadero(dieta) then [DietaIgual(dieta.value)] else [];
    assert conds == Condiciones(busqueda, eraId, regionId, dieta);
    var filas := Consulta(db.dinosaurios, conds);
    r := [];
    for i := 0 to |filas|
      invariant r == filas[..i]
    {
      r := r + [filas[i]];
    }
    assert r == filas;
  }

  /** Clauses joined with `AND` hold when each part's clauses hold. */
  lemma CumpleTodasConcat(a: seq<Condicion>, b: seq<Condicion>, d: Dinosaurio)
    ensures CumpleTodas(a + b, d) <==> CumpleTodas(a, d) && CumpleTodas(b, d)
  {
    if CumpleTodas(a + b, d) {
      forall i | 0 <= i < |a|
        ensures Cumple(a[i], d)
      {
        assert (a + b)[i] == a[i];
      }
      forall i | 0 <= i < |b|
        ensures Cumple(b[i], d)
      {
        assert (a + b)[|a| + i] == b[i];
      }
    }
  }

  /** The assembled clauses say exactly what the filters mean. */
  lemma CondicionesCoinciden(d: Dinosaurio, busqueda: Option<string>, eraId: Option<int>,
                             regionId: Option<int>, dieta: Option<string>)
    ensures CumpleTodas(Condiciones(busqueda, eraId, regionId, dieta), d)
            <==> Coincide(d, busqueda, eraId, regionId, dieta)
  {
    var a := if TextoVerdadero(busqueda) then [Busqueda(busqueda.value)] else [];
    var b := if EnteroVerdadero(eraId) then [EraIgual(eraId.value)] else [];
    var c := if EnteroVerdadero(regionId) then [RegionIgual(regionId.value)] else [];
    var e := if TextoVerdadero(dieta) then [DietaIgual(dieta.value)] else [];
    assert Condiciones(busqueda, eraId, regionId, dieta) == a + b + c + e;
    assert CumpleTodas(a, d) <==> (TextoVerdadero(busqueda) ==> Cumple(a[0], d));
    assert CumpleTodas(b, d) <==> (EnteroVerdadero(eraId) ==> Cumple(b[0], d));
    assert CumpleTodas(c, d) <==> (EnteroVerdadero(regionId) ==> Cumple(c[0], d));
    assert CumpleTodas(e, d) <==> (TextoVerdadero(dieta) ==> Cumple(e[0], d));
    CumpleTodasConcat(a + b + c, e, d);
    CumpleTodasConcat(a + b, c, d);
    CumpleTodasConcat(a, b, d);
  }

  /** `get_all` returns exactly the stored dinosaurs that meet every given filter. */
  lemma GetAllMiembros(rows: seq<Dinosaurio>, busqueda: Option<string>, eraId: Option<int>,
                       regionId: Option<int>, dieta: Option<string>, d: Dinosaurio)
    ensures d in Seleccion(rows, busqueda, eraId, regionId, dieta)
            <==> d in rows && Coincide(d, busqueda, eraId, regionId, dieta)
  {
    var conds := Condiciones(busqueda, eraId, regionId, dieta);
    var p := (x: Dinosaurio) => CumpleTodas(conds, x);
    FilterIn(rows, p);
    SortByPermutation(Filter(rows, p), NombreLe);
    CondicionesCoinciden(d, busqueda, eraId, regionId, dieta);
  }

  /** `get_all` returns its rows ordered by name. */
  lemma GetAllOrdenado(rows: seq<Dinosaurio>, busqueda: Option<string>, eraId: Option<int>,
                       regionId: Option<int>, dieta: Option<string>)
    ensures SortedBy(Seleccion(rows, busqueda, eraId, regionId, dieta), NombreLe)
  {
    LexLeByKey((d: Dinosaurio) => d.nombre, NombreLe);
    var conds := Condiciones(busqueda, eraId, regionId, dieta);
    SortBySorted(Filter(rows, (x: Dinosaurio) => CumpleTodas(conds, x)), NombreLe);
  }

  /** With no truthy filter (None, `""` or id 0 alike), `get_all` returns every stored
      dinosaur, each as often as it is stored. */
  lemma GetAllSinFiltros(rows: seq<Dinosaurio>, busqueda: Option<string>, eraId: Option<int>,
                         regionId: Option<int>, dieta: Option<string>)
    requires !TextoVerdadero(busqueda) && !EnteroVerdadero(eraId)
    requires !EnteroVerdadero(regionId) && !TextoVerdadero(dieta)
    ensures multiset(Seleccion(rows, busqueda, eraId, regionId, dieta)) == multiset(rows)
  {
    var conds := Condiciones(busqueda, eraId, regionId, dieta);
    assert conds == [];
    var p := (x: Dinosaurio) => CumpleTodas(conds, x);
    FilterTodos(rows, p);
    SortByPermutation(rows, NombreLe);
  }

  /** `get_by_id`: the row with that id, or None. */
  function GetById(rows: seq<Dinosaurio>, id: int): (r: Option<Dinosaurio>)
    ensures r.Some? ==> r.value in rows && r.value.id == id
    ensures r.None? <==> forall d :: d in rows ==> d.id != id
  {
    FindById(rows, IdDinosaurio, id)
  }

  /** `insertar_dinosaurio`: the row gets the next AUTO_INCREMENT id, which is returned.
      An `INSERT ... VALUES` always affects one row, so its RuntimeError never fires. */
  method InsertarDinosaurio(db: Database, d: Dinosaurio) returns (r: Result<int>)
    requires db.DinosauriosValidos()
    modifies db`dinosaurios, db`siguienteDinosaurioId
    ensures db.DinosauriosValidos()
    ensures r == Ok(old(db.siguienteDinosaurioId))
    ensures db.dinosaurios == old(db.dinosaurios) + [d.(id := r.value)]
    ensures db.siguienteDinosaurioId == old(db.siguienteDinosaurioId) + 1
    ensures GetById(db.dinosaurios, r.value) == Some(d.(id := r.value))
  {
    var fila := d.(id := db.siguienteDinosaurioId);
    FindByIdAppend(db.dinosaurios, IdDinosaurio, fila);
    db.dinosaurios := db.dinosaurios + [fila];
    db.siguienteDinosaurioId := db.siguienteDinosaurioId + 1;
    r := Ok(fila.id);
  }

  /** The row `fila` after `actualizar_dinosaurio`'s `UPDATE` with `d`: every column is
      taken from `d` except `creador_id`, which the statement does not set. */
  function Actualizada(fila: Dinosaurio, d: Dinosaurio): Dinosaurio {
    d.(creadorId := fila.creadorId)
  }

  /** The table after `UPDATE dinosaurios SET ... WHERE id = d.id`. */
  function ActualizarFilas(rows: seq<Dinosaurio>, d: Dinosaurio): (r: seq<Dinosaurio>)
    ensures |r| == |rows|
  {
    if rows == [] then []
    else [if rows[0].id == d.id then Actualizada(rows[0], d) else rows[0]] + ActualizarFilas(rows[1..], d)
  }

  /** After the update, looking up `d.id` finds `d` with the stored author; with no
      such row the table is unchanged. */
  lemma {:induction false} ActualizarGetById(rows: seq<Dinosaurio>, d: Dinosaurio)
    ensures GetById(ActualizarFilas(rows, d), d.id)
            == if GetById(rows, d.id).Some? then Some(Actualizada(GetById(rows, d.id).value, d)) else None
    ensures GetById(rows, d.id).None? ==> ActualizarFilas(rows, d) == rows
  {
    if rows != [] {
      ActualizarGetById(rows[1..], d);
    }
  }

  /** The update keeps every row with another id, and gives no row a new id. */
  lemma {:induction false} ActualizarConserva(rows: seq<Dinosaurio>, d: Dinosaurio, n: int)
    requires forall x :: x in rows ==> x.id < n
    ensures forall x :: x in rows && x.id != d.id ==> x in ActualizarFilas(rows, d)
    ensures forall x :: x in ActualizarFilas(rows, d) ==> x.id < n
  {
    if rows != [] {
      ActualizarConserva(rows[1..], d, n);
      assert rows == [rows[0]] + rows[1..];
    }
  }

  /** `actualizar_dinosaurio`: `cursor.rowcount` counts the matched rows; the update is
      committed and a RuntimeError follows when it matched none. */
  method ActualizarDinosaurio(db: Database, d: Dinosaurio) returns (r: Result<()>)
    requires db.DinosauriosValidos()
    modifies db`dinosaurios
    ensures db.DinosauriosValidos()
    ensures db.dinosaurios == ActualizarFilas(old(db.dinosaurios), d)
    ensures r == if GetById(old(db.dinosaurios), d.id).Some? then Ok(()) else Err(ErrorActualizar)
    ensures r.Err? ==> db.dinosaurios == old(db.dinosaurios)
  {
    var afectadas := CountById(db.dinosaurios, IdDinosaurio, d.id);
    CountByIdZero(db.dinosaurios, IdDinosaurio, d.id);
    ActualizarGetById(db.dinosaurios, d);
    ActualizarConserva(db.dinosaurios, d, db.siguienteDinosaurioId);
    db.dinosaurios := ActualizarFilas(db.dinosaurios, d);
    if afectadas == 0 {
      r := Err(ErrorActualizar);
    } else {
      r := Ok(());
    }
  }

  /** The link table without any link of dinosaur `id`. */
  function SinVinculos(links: set<(int, int)>, id: int): set<(int, int)> {
    set p | p in links && p.0 != id
  }

  /** `borrar_dinosaurio`: first every link of the dinosaur goes, then its row; both are
      committed before the RuntimeError for a missing id, so the links are gone even then. */
  method BorrarDinosaurio(db: Database, id: int) returns (r: Result<()>)
    requires db.DinosauriosValidos()
    modifies db`dinosaurios, db`dinosauriosHabitats
    ensures db.DinosauriosValidos()
    ensures db.dinosauriosHabitats == SinVinculos(old(db.dinosauriosHabitats), id)
    ensures db.dinosaurios == DeleteById(old(db.dinosaurios), IdDinosaurio, id)
    ensures r == if GetById(old(db.dinosaurios), id).Some? then Ok(()) else Err(ErrorBorrar)
    ensures GetById(db.dinosaurios, id).None?
  {
    db.dinosauriosHabitats := SinVinculos(db.dinosauriosHabitats, id);
    var afectadas := CountById(db.dinosaurios, IdDinosaurio, id);
    CountByIdZero(db.dinosaurios, IdDinosaurio, id);
    DeleteByIdCount(db.dinosaurios, IdDinosaurio, id);
    db.dinosaurios := DeleteById(db.dinosaurios, IdDinosaurio, id);
    if afectadas == 0 {
      r := Err(ErrorBorrar);
    } else {
      r := Ok(());
    }
  }

  /** `agregar_habitat`: `INSERT ... ON DUPLICATE KEY UPDATE` adds the link, and adding
      an existing link changes nothing. */
  method AgregarHabitat(db: Database, dinosaurioId: int, habitatId: int)
    modifies db`dinosauriosHabitats
    ensures db.dinosauriosHabitats == old(db.dinosauriosHabitats) + {(dinosaurioId, habitatId)}
    ensures (dinosaurioId, habitatId) in old(db.dinosauriosHabitats)
            ==> db.dinosauriosHabitats == old(db.dinosauriosHabitats)
  {
    db.dinosauriosHabitats := db.dinosauriosHabitats + {(dinosaurioId, habitatId)};
  }

  /** `quitar_habitat`: removes that one link, if present, and no other. */
  method QuitarHabitat(db: Database, dinosaurioId: int, habitatId: int)
    modifies db`dinosauriosHabitats
    ensures db.dinosauriosHabitats == old(db.dinosauriosHabitats) - {(dinosaurioId, habitatId)}
  {
    db.dinosauriosHabitats := db.dinosauriosHabitats - {(dinosaurioId, habitatId)};
  }

  /** `get_habitats`: the habitat ids linked to the dinosaur, each once, in whatever
      order the rows come back; `[]` when there are none. */
  method GetHabitats(db: Database, dinosaurioId: int) returns (r: seq<int>)
    ensures forall h :: h in r <==> (dinosaurioId, h) in db.dinosauriosHabitats
    ensures forall i, j :: 0 <= i < j < |r| ==> r[i] != r[j]
  {
    var pendientes := db.dinosauriosHabitats;
    r := [];
    while pendientes != {}
      invariant pendientes <= db.dinosauriosHabitats
      invariant forall h :: h in r <==> (dinosaurioId, h) in db.dinosauriosHabitats - pendientes
      invariant forall i, j :: 0 <= i < j < |r| ==> r[i] != r[j]
      decreases |pendientes|
    {
      var p :| p in pendientes;
      if p.0 == dinosaurioId {
        r := r + [p.1];
      }
      pendientes := pendientes - {p};
    }
  }
}
