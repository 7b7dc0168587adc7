/** data/era_repository.py: the catalog of geological eras. */
module EraRepositorio {
  import opened Wrappers
  import opened Text
  import opened Sorting
  import opened Tables
  import opened Catalogo
  import opened Consultas
  import opened Store

  /** One `AND` clause that `get_all` appends to its `WHERE 1=1`, with its parameters. */
  datatype Condicion = Busqueda(texto: string)

  predicate Cumple(c: Condicion, e: Era) {
    Contains(e.nombre, c.texto) || Como(e.descripcion, c.texto)
  }

  predicate CumpleTodas(conds: seq<Condicion>, e: Era) {
    forall i :: 0 <= i < |conds| ==> Cumple(conds[i], e)
  }

  /** The clauses `get_all` appends for the given filters, in the order it appends them. */
  function Condiciones(busqueda: Option<string>): seq<Condicion> {
    if TextoVerdadero(busqueda) then [Busqueda(busqueda.value)] else []
  }

  /** The search as the page means it: a truthy one must occur in the name or the
      description; a falsy one filters nothing. */
  predicate Coincide(e: Era, busqueda: Option<string>) {
    TextoVerdadero(busqueda) ==> Contains(e.nombre, busqueda.value) || Como(e.descripcion, busqueda.value)
  }

  /** `ORDER BY periodo_inicio DESC`: larger starts first; MySQL sorts NULL below every
      number, so eras without a start come last. */
  predicate InicioDescLe(a: Era, b: Era) {
    b.periodoInicio.None? || (a.periodoInicio.Some? && a.periodoInicio.value >= b.periodoInicio.value)
  }

  /** The descending order compares any two eras and chains. */
  lemma InicioDescTotal()
    ensures IsTotalPreorder(InicioDescLe)
  {
    forall a: Era, b: Era, c: Era | InicioDescLe(a, b) && InicioDescLe(b, c)
      ensures InicioDescLe(a, c)
    {
      if c.periodoInicio.Some? {
        assert b.periodoInicio.Some?;
      }
    }
  }

  /** The rows a query with clauses `conds` returns, in the order it returns them. */
  function Consulta(rows: seq<Era>, conds: seq<Condicion>): (r: seq<Era>)
    ensures |r| <= |rows|
  {
    SortBy(Filter(rows, (e: Era) => CumpleTodas(conds, e)), InicioDescLe)
  }

  /** What `get_all` returns for the given filters. */
  function Seleccion(rows: seq<Era>, busqueda: Option<string>): seq<Era> {
    Consulta(rows, Condiciones(busqueda))
  }

  /** `get_all`: grows the query clause by clause, runs it, and copies the rows out. */
  method GetAll(db: Database, busqueda: Option<string>)
    returns (r: seq<Era>)
    ensures r == Seleccion(db.eras, busqueda)
  {
    var conds: seq<Condicion> := [];
    conds := conds + if TextoVerdadero(busqueda) then [Busqueda(busqueda.value)] else [];
    assert conds == Condiciones(busqueda);
    var filas := Consulta(db.eras, conds);
    r := [];
    for i := 0 to |filas|
      invariant r == filas[..i]
    {
      r := r + [filas[i]];
    }
    assert r == filas;
  }

  /** The assembled clauses say exactly what the filters mean. */
  lemma CondicionesCoinciden(e: Era, busqueda: Option<string>)
    ensures CumpleTodas(Condiciones(busqueda), e) <==> Coincide(e, busqueda)
  {
    if TextoVerdadero(busqueda) {
      assert Condiciones(busqueda)[0] == Busqueda(busqueda.value);
    }
  }

  /** `get_all` returns exactly the stored eras that meet the search. */
  lemma GetAllMiembros(rows: seq<Era>, busqueda: Option<string>, e: Era)
    ensures e in Seleccion(rows, busqueda) <==> e in rows && Coincide(e, busqueda)
  {
    var conds := Condiciones(busqueda);
    var p := (x: Era) => CumpleTodas(conds, x);
    FilterIn(rows, p);
    SortByPermutation(Filter(rows, p), InicioDescLe);
    CondicionesCoinciden(e, busqueda);
  }

  /** `get_all` returns its rows ordered by start, latest first. */
  lemma GetAllOrdenado(rows: seq<Era>, busqueda: Option<string>)
    ensures SortedBy(Seleccion(rows, busqueda), InicioDescLe)
    ensures forall i, j :: 0 <= i < j < |Seleccion(rows, busqueda)| ==>
              var a, b := Seleccion(rows, busqueda)[i].periodoInicio, Seleccion(rows, busqueda)[j].periodoInicio;
              (a.None? ==> b.None?) && (a.Some? && b.Some? ==> a.value >= b.value)
  {
    InicioDescTotal();
    var conds := Condiciones(busqueda);
    SortBySorted(Filter(rows, (x: Era) => CumpleTodas(conds, x)), InicioDescLe);
  }

  /** With a falsy search, `get_all` returns every stored era. */
  lemma GetAllSinFiltros(rows: seq<Era>, busqueda: Option<string>)
    requires !TextoVerdadero(busqueda)
    ensures multiset(Seleccion(rows, busqueda)) == multiset(rows)
  {
    var conds := Condiciones(busqueda);
    assert conds == [];
    var p := (x: Era) => CumpleTodas(conds, x);
    FilterTodos(rows, p);
    SortByPermutation(rows, InicioDescLe);
  }

  /** `get_by_id`: the row with that id, or None when there is none. */
  function GetById(rows: seq<Era>, id: int): (r: Option<Era>)
    ensures r.Some? ==> r.value in rows && r.value.id == id
    ensures r.None? <==> forall e :: e in rows ==> e.id != id
  {
    FindById(rows, IdEra, id)
  }

  /** `insertar_era`: the row gets the next AUTO_INCREMENT id. An `INSERT ... VALUES`
      always affects one row, so its RuntimeError never fires. */
  method InsertarEra(db: Database, e: Era) returns (r: Result<()>)
    requires db.ErasValidas()
    modifies db`eras, db`siguienteEraId
    ensures db.ErasValidas()
    ensures r == Ok(())
    ensures db.eras == old(db.eras) + [e.(id := old(db.siguienteEraId))]
    ensures db.siguienteEraId == old(db.siguienteEraId) + 1
    ensures GetById(db.eras, old(db.siguienteEraId)) == Some(e.(id := old(db.siguienteEraId)))
  {
    var fila := e.(id := db.siguienteEraId);
    FindByIdAppend(db.eras, IdEra, fila);
    db.eras := db.eras + [fila];
    db.siguienteEraId := db.siguienteEraId + 1;
    r := Ok(());
  }

  /** `actualizar_era`: every column of the row with `e.id` is overwritten; a
      RuntimeError follows, after the commit, when no row has that id. */
  method ActualizarEra(db: Database, e: Era) returns (r: Result<()>)
    requires db.ErasValidas()
    modifies db`eras
    ensures db.ErasValidas()
    ensures db.eras == ReplaceById(old(db.eras), IdEra, e)
    ensures r == if GetById(old(db.eras), e.id).Some? then Ok(()) else Err(ErrorActualizar)
    ensures GetById(db.eras, e.id) == if r.Ok? then Some(e) else None
  {
    var afectadas := CountById(db.eras, IdEra, e.id);
    CountByIdZero(db.eras, IdEra, e.id);
    FindByIdReplace(db.eras, IdEra, e);
    db.eras := ReplaceById(db.eras, IdEra, e);
    if afectadas == 0 {
      r := Err(ErrorActualizar);
    } else {
      r := Ok(());
    }
  }

  /** `borrar_era`: the row with `id` goes; a RuntimeError follows when there was none. */
  method BorrarEra(db: Database, id: int) returns (r: Result<()>)
    requires db.ErasValidas()
    modifies db`eras
    ensures db.ErasValidas()
    ensures db.eras == DeleteById(old(db.eras), IdEra, id)
    ensures r == if GetById(old(db.eras), id).Some? then Ok(()) else Err(ErrorBorrar)
    ensures GetById(db.eras, id).None?
  {
    var afectadas := CountById(db.eras, IdEra, id);
    CountByIdZero(db.eras, IdEra, id);
    DeleteByIdCount(db.eras, IdEra, id);
    db.eras := DeleteById(db.eras, IdEra, id);
    if afectadas == 0 {
      r := Err(ErrorBorrar);
    } else {
      r := Ok(());
    }
  }
}
