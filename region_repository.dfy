/** data/region_repository.py: the region catalog. */
module RegionRepositorio {
  import opened Wrappers
  import opened Text
  import opened Sorting
  import opened Tables
  import opened Catalogo
  import opened Consultas
  import opened Store

  /** One `AND` clause that `get_all` appends to its `WHERE 1=1`, with its parameters. */
  datatype Condicion =
    | Busqueda(texto: string)
    | ContinenteIgual(continente: string)

  predicate Cumple(c: Condicion, g: Region) {
    match c
    case Busqueda(t) => Contains(g.nombre, t) || Como(g.pais, t) || Como(g.descripcion, t)
    case ContinenteIgual(x) => g.continente == Some(x)
  }

  predicate CumpleTodas(conds: seq<Condicion>, g: Region) {
    forall i :: 0 <= i < |conds| ==> Cumple(conds[i], g)
  }

  /** The clauses `get_all` appends for the given filters, in the order it appends them. */
  function Condiciones(busqueda: Option<string>, continente: Option<string>): seq<Condicion> {
    (if TextoVerdadero(busqueda) then [Busqueda(busqueda.value)] else [])
    + (if TextoVerdadero(continente) then [ContinenteIgual(continente.value)] else [])
  }

  /** The filters as the page means them: each truthy one must hold, both together. */
  predicate Coincide(g: Region, busqueda: Option<string>, continente: Option<string>) {
    && (TextoVerdadero(busqueda) ==>
          Contains(g.nombre, busqueda.value) || Como(g.pais, busqueda.value) || Como(g.descripcion, busqueda.value))
    && (TextoVerdadero(continente) ==> g.continente == continente)
  }

  /** `ORDER BY nombre`. */
  predicate NombreLe(a: Region, b: Region) {
    LexLe(a.nombre, b.nombre)
  }

  /** The rows a query with clauses `conds` returns, in the order it returns them. */
  function Consulta(rows: seq<Region>, conds: seq<Condicion>): (r: seq<Region>)
    ensures |r| <= |rows|
  {
    SortBy(Filter(rows, (g: Region) => CumpleTodas(conds, g)), NombreLe)
  }

  /** What `get_all` returns for the given filters. */
  function Seleccion(rows: seq<Region>, busqueda: Option<string>, continente: Option<string>): seq<Region> {
    Consulta(rows, Condiciones(busqueda, continente))
  }

  /** `get_all`: grows the query clause by clause, runs it, and copies the rows out. */
  method GetAll(db: Database, busqueda: Option<string>, continente: Option<string>)
    returns (r: seq<Region>)
    ensures r == Seleccion(db.regiones, busqueda, continente)
  {
    var conds: seq<Condicion> := [];
    conds := conds + if TextoVerdadero(busqueda) then [Busqueda(busqueda.value)] else [];
    conds := conds + if TextoVerdadero(continente) then [ContinenteIgual(continente.value)] else [];
    assert conds == Condiciones(busqueda, continente);
    var filas := Consulta(db.regiones, conds);
    r := [];
    for i := 0 to |filas|
      invariant r == filas[..i]
    {
      r := r + [filas[i]];
    }
    assert r == filas;
  }

  /** The assembled clauses say exactly what the filters mean. */
  lemma CondicionesCoinciden(g: Region, busqueda: Option<string>, continente: Option<string>)
    ensures CumpleTodas(Condiciones(busqueda, continente), g) <==> Coincide(g, busqueda, continente)
  {
    var a := if TextoVerdadero(busqueda) then [Busqueda(busqueda.value)] else [];
    var b := if TextoVerdadero(continente) then [ContinenteIgual(continente.value)] else [];
    assert Condiciones(busqueda, continente) == a + b;
    if CumpleTodas(a + b, g) {
      if TextoVerdadero(busqueda) {
        assert (a + b)[0] == a[0];
      }
      if TextoVerdadero(continente) {
        assert (a + b)[|a|] == b[0];
      }
    }
  }

  /** `get_all` returns exactly the stored regions that meet every given filter. */
  lemma GetAllMiembros(rows: seq<Region>, busqueda: Option<string>, continente: Option<string>, g: Region)
    ensures g in Seleccion(rows, busqueda, continente) <==> g in rows && Coincide(g, busqueda, continente)
  {
    var conds := Condiciones(busqueda, continente);
    var p := (x: Region) => CumpleTodas(conds, x);
    FilterIn(rows, p);
    SortByPermutation(Filter(rows, p), NombreLe);
    CondicionesCoinciden(g, busqueda, continente);
  }

  /** `get_all` returns its rows ordered by name. */
  lemma GetAllOrdenado(rows: seq<Region>, busqueda: Option<string>, continente: Option<string>)
    ensures SortedBy(Seleccion(rows, busqueda, continente), NombreLe)
  {
    LexLeByKey((g: Region) => g.nombre, NombreLe);
    var conds := Condiciones(busqueda, continente);
    SortBySorted(Filter(rows, (x: Region) => CumpleTodas(conds, x)), NombreLe);
  }

  /** With no truthy filter, `get_all` returns every stored region. */
  lemma GetAllSinFiltros(rows: seq<Region>, busqueda: Option<string>, continente: Option<string>)
    requires !TextoVerdadero(busqueda) && !TextoVerdadero(continente)
    ensures multiset(Seleccion(rows, busqueda, continente)) == multiset(rows)
  {
    var conds := Condiciones(busqueda, continente);
    assert conds == [];
    var p := (x: Region) => CumpleTodas(conds, x);
    FilterTodos(rows, p);
    SortByPermutation(rows, NombreLe);
  }

  /** `get_by_id`: the row with that id, or None when there is none. */
  function GetById(rows: seq<Region>, id: int): (r: Option<Region>)
    ensures r.Some? ==> r.value in rows && r.value.id == id
    ensures r.None? <==> forall g :: g in rows ==> g.id != id
  {
    FindById(rows, IdRegion, id)
  }

  /** `insertar_region`: the row gets the next AUTO_INCREMENT id. An `INSERT ... VALUES`
      always affects one row, so its RuntimeError never fires. */
  method InsertarRegion(db: Database, g: Region) returns (r: Result<()>)
    requires db.RegionesValidas()
    modifies db`regiones, db`siguienteRegionId
    ensures db.RegionesValidas()
    ensures r == Ok(())
    ensures db.regiones == old(db.regiones) + [g.(id := old(db.siguienteRegionId))]
    ensures db.siguienteRegionId == old(db.siguienteRegionId) + 1
    ensures GetById(db.regiones, old(db.siguienteRegionId)) == Some(g.(id := old(db.siguienteRegionId)))
  {
    var fila := g.(id := db.siguienteRegionId);
    FindByIdAppend(db.regiones, IdRegion, fila);
    db.regiones := db.regiones + [fila];
    db.siguienteRegionId := db.siguienteRegionId + 1;
    r := Ok(());
  }

  /** `actualizar_region`: every column of the row with `g.id` is overwritten; a
      RuntimeError follows, after the commit, when no row has that id. */
  method ActualizarRegion(db: Database, g: Region) returns (r: Result<()>)
    requires db.RegionesValidas()
    modifies db`regiones
    ensures db.RegionesValidas()
    ensures db.regiones == ReplaceById(old(db.regiones), IdRegion, g)
    ensures r == if GetById(old(db.regiones), g.id).Some? then Ok(()) else Err(ErrorActualizar)
    ensures GetById(db.regiones, g.id) == if r.Ok? then Some(g) else None
  {
    var afectadas := CountById(db.regiones, IdRegion, g.id);
    CountByIdZero(db.regiones, IdRegion, g.id);
    FindByIdReplace(db.regiones, IdRegion, g);
    db.regiones := ReplaceById(db.regiones, IdRegion, g);
    if afectadas == 0 {
      r := Err(ErrorActualizar);
    } else {
      r := Ok(());
    }
  }

  /** `borrar_region`: the row with `id` goes; a RuntimeError follows when there was none. */
  method BorrarRegion(db: Database, id: int) returns (r: Result<()>)
    requires db.RegionesValidas()
    modifies db`regiones
    ensures db.RegionesValidas()
    ensures db.regiones == DeleteById(old(db.regiones), IdRegion, id)
    ensures r == if GetById(old(db.regiones), id).Some? then Ok(()) else Err(ErrorBorrar)
    ensures GetById(db.regiones, id).None?
  {
    var afectadas := CountById(db.regiones, IdRegion, id);
    CountByIdZero(db.regiones, IdRegion, id);
    DeleteByIdCount(db.regiones, IdRegion, id);
    db.regiones := DeleteById(db.regiones, IdRegion, id);
    if afectadas == 0 {
      r := Err(ErrorBorrar);
    } else {
      r := Ok(());
    }
  }
}
