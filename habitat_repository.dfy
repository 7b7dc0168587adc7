/** data/habitat_repository.py: the habitat catalog and the habitats of one dinosaur. */
module HabitatRepositorio {
  import opened Wrappers
  import opened Text
  import opened Sorting
  import opened Tables
  import opened Catalogo
  import opened Consultas
  import opened Store

  /** One `AND` clause that `get_all` appends to its `WHERE 1=1`, with its parameters. */
  datatype Condicion =
    | Busqueda(texto: string)
    | TipoAmbienteIgual(tipoAmbiente: string)

  predicate Cumple(c: Condicion, h: Habitat) {
    match c
    case Busqueda(t) => Contains(h.nombre, t) || Como(h.descripcion, t)
    case TipoAmbienteIgual(x) => h.tipoAmbiente == Some(x)
  }

  predicate CumpleTodas(conds: seq<Condicion>, h: Habitat) {
    forall i :: 0 <= i < |conds| ==> Cumple(conds[i], h)
  }

  /** The clauses `get_all` appends for the given filters, in the order it appends them. */
  function Condiciones(busqueda: Option<string>, tipoAmbiente: Option<string>): seq<Condicion> {
    (if TextoVerdadero(busqueda) then [Busqueda(busqueda.value)] else [])
    + (if TextoVerdadero(tipoAmbiente) then [TipoAmbienteIgual(tipoAmbiente.value)] else [])
  }

  /** The filters as the page means them: each truthy one must hold, both together. */
  predicate Coincide(h: Habitat, busqueda: Option<string>, tipoAmbiente: Option<string>) {
    && (TextoVerdadero(busqueda) ==> Contains(h.nombre, busqueda.value) || Como(h.descripcion, busqueda.value))
    && (TextoVerdadero(tipoAmbiente) ==> h.tipoAmbiente == tipoAmbiente)
  }

  /** `ORDER BY nombre`. */
  predicate NombreLe(a: Habitat, b: Habitat) {
    LexLe(a.nombre, b.nombre)
  }

  /** The rows a query with clauses `conds` returns, in the order it returns them. */
  function Consulta(rows: seq<Habitat>, conds: seq<Condicion>): (r: seq<Habitat>)
    ensures |r| <= |rows|
  {
    SortBy(Filter(rows, (h: Habitat) => CumpleTodas(conds, h)), NombreLe)
  }

  /** What `get_all` returns for the given filters. */
  function Seleccion(rows: seq<Habitat>, busqueda: Option<string>, tipoAmbiente: Option<string>): seq<Habitat> {
    Consulta(rows, Condiciones(busqueda, tipoAmbiente))
  }

  /** `get_all`: grows the query clause by clause, runs it, and copies the rows out. */
  method GetAll(db: Database, busqueda: Option<string>, tipoAmbiente: Option<string>)
    returns (r: seq<Habitat>)
    ensures r == Seleccion(db.habitats, busqueda, tipoAmbiente)
  {
    var conds: seq<Condicion> := [];
    conds := conds + if TextoVerdadero(busqueda) then [Busqueda(busqueda.value)] else [];
    conds := conds + if TextoVerdadero(tipoAmbiente) then [TipoAmbienteIgual(tipoAmbiente.value)] else [];
    assert conds == Condiciones(busqueda, tipoAmbiente);
    var filas := Consulta(db.habitats, conds);
    r := [];
    for i := 0 to |filas|
      invariant r == filas[..i]
    {
      r := r + [filas[i]];
    }
    assert r == filas;
  }

  /** The assembled clauses say exactly what the filters mean. */
  lemma CondicionesCoinciden(h: Habitat, busqueda: Option<string>, tipoAmbiente: Option<string>)
    ensures CumpleTodas(Condiciones(busqueda, tipoAmbiente), h) <==> Coincide(h, busqueda, tipoAmbiente)
  {
    var a := if TextoVerdadero(busqueda) then [Busqueda(busqueda.value)] else [];
    var b := if TextoVerdadero(tipoAmbiente) then [TipoAmbienteIgual(tipoAmbiente.value)] else [];
    assert Condiciones(busqueda, tipoAmbiente) == a + b;
    if CumpleTodas(a + b, h) {
      if TextoVerdadero(busqueda) {
        assert (a + b)[0] == a[0];
      }
      if TextoVerdadero(tipoAmbiente) {
        assert (a + b)[|a|] == b[0];
      }
    }
  }

  /** `get_all` returns exactly the stored habitats that meet every given filter. */
  lemma GetAllMiembros(rows: seq<Habitat>, busqueda: Option<string>, tipoAmbiente: Option<string>, h: Habitat)
    ensures h in Seleccion(rows, busqueda, tipoAmbiente) <==> h in rows && Coincide(h, busqueda, tipoAmbiente)
  {
    var conds := Condiciones(busqueda, tipoAmbiente);
    var p := (x: Habitat) => CumpleTodas(conds, x);
    FilterIn(rows, p);
    SortByPermutation(Filter(rows, p), NombreLe);
    CondicionesCoinciden(h, busqueda, tipoAmbiente);
  }

  /** `get_all` returns its rows ordered by name. */
  lemma GetAllOrdenado(rows: seq<Habitat>, busqueda: Option<string>, tipoAmbiente: Option<string>)
    ensures SortedBy(Seleccion(rows, busqueda, tipoAmbiente), NombreLe)
  {
    LexLeByKey((h: Habitat) => h.nombre, NombreLe);
    var conds := Condiciones(busqueda, tipoAmbiente);
    SortBySorted(Filter(rows, (x: Habitat) => CumpleTodas(conds, x)), NombreLe);
  }

  /** With no truthy filter, `get_all` returns every stored habitat. */
  lemma GetAllSinFiltros(rows: seq<Habitat>, busqueda: Option<string>, tipoAmbiente: Option<string>)
    requires !TextoVerdadero(busqueda) && !TextoVerdadero(tipoAmbiente)
    ensures multiset(Seleccion(rows, busqueda, tipoAmbiente)) == multiset(rows)
  {
    var conds := Condiciones(busqueda, tipoAmbiente);
    assert conds == [];
    var p := (x: Habitat) => CumpleTodas(conds, x);
    FilterTodos(rows, p);
    SortByPermutation(rows, NombreLe);
  }

  /** `get_by_id`: the row with that id, or None when there is none. */
  function GetById(rows: seq<Habitat>, id: int): (r: Option<Habitat>)
    ensures r.Some? ==> r.value in rows && r.value.id == id
    ensures r.None? <==> forall h :: h in rows ==> h.id != id
  {
    FindById(rows, IdHabitat, id)
  }

  /** `insertar_habitat`: the row gets the next AUTO_INCREMENT id. An `INSERT ... VALUES`
      always affects one row, so its RuntimeError never fires. */
  method InsertarHabitat(db: Database, h: Habitat) returns (r: Result<()>)
    requires db.HabitatsValidos()
    modifies db`habitats, db`siguienteHabitatId
    ensures db.HabitatsValidos()
    ensures r == Ok(())
    ensures db.habitats == old(db.habitats) + [h.(id := old(db.siguienteHabitatId))]
    ensures db.siguienteHabitatId == old(db.siguienteHabitatId) + 1
    ensures GetById(db.habitats, old(db.siguienteHabitatId)) == Some(h.(id := old(db.siguienteHabitatId)))
  {
    var fila := h.(id := db.siguienteHabitatId);
    FindByIdAppend(db.habitats, IdHabitat, fila);
    db.habitats := db.habitats + [fila];
    db.siguienteHabitatId := db.siguienteHabitatId + 1;
    r := Ok(());
  }

  /** `actualizar_habitat`: every column of the row with `h.id` is overwritten; a
      RuntimeError follows, after the commit, when no row has that id. */
  method ActualizarHabitat(db: Database, h: Habitat) returns (r: Result<()>)
    requires db.HabitatsValidos()
    modifies db`habitats
    ensures db.HabitatsValidos()
    ensures db.habitats == ReplaceById(old(db.habitats), IdHabitat, h)
    ensures r == if GetById(old(db.habitats), h.id).Some? then Ok(()) else Err(ErrorActualizar)
    ensures GetById(db.habitats, h.id) == if r.Ok? then Some(h) else None
  {
    var afectadas := CountById(db.habitats, IdHabitat, h.id);
    CountByIdZero(db.habitats, IdHabitat, h.id);
    FindByIdReplace(db.habitats, IdHabitat, h);
    db.habitats := ReplaceById(db.habitats, IdHabitat, h);
    if afectadas == 0 {
      r := Err(ErrorActualizar);
    } else {
      r := Ok(());
    }
  }

  /** `borrar_habitat`: the row with `id` goes; a RuntimeError follows when there was none. */
  method BorrarHabitat(db: Database, id: int) returns (r: Result<()>)
    requires db.HabitatsValidos()
    modifies db`habitats
    ensures db.HabitatsValidos()
    ensures db.habitats == DeleteById(old(db.habitats), IdHabitat, id)
    ensures r == if GetById(old(db.habitats), id).Some? then Ok(()) else Err(ErrorBorrar)
    ensures GetById(db.habitats, id).None?
  {
    var afectadas := CountById(db.habitats, IdHabitat, id);
    CountByIdZero(db.habitats, IdHabitat, id);
    DeleteByIdCount(db.habitats, IdHabitat, id);
    db.habitats := DeleteById(db.habitats, IdHabitat, id);
    if afectadas == 0 {
      r := Err(ErrorBorrar);
    } else {
      r := Ok(());
    }
  }

  /** The joined rows of `get_habitats_by_dinosaurio`: habitats linked to dinosaur `d`,
      by name. */
  function Vinculados(rows: seq<Habitat>, links: set<(int, int)>, d: int): (r: seq<Habitat>)
    ensures |r| <= |rows|
  {
    SortBy(Filter(rows, (h: Habitat) => (d, h.id) in links), NombreLe)
  }

  /** A habitat built from the four selected columns: `imagen` keeps its default. */
  function SinImagen(h: Habitat): Habitat {
    Habitat(h.id, h.nombre, h.tipoAmbiente, h.descripcion)
  }

  /** What `get_habitats_by_dinosaurio` returns. */
  function HabitatsDeDinosaurio(rows: seq<Habitat>, links: set<(int, int)>, d: int): (r: seq<Habitat>)
    ensures |r| == |Vinculados(rows, links, d)|
  {
    var v := Vinculados(rows, links, d);
    seq(|v|, i requires 0 <= i < |v| => SinImagen(v[i]))
  }

  /** `get_habitats_by_dinosaurio`: runs the join and builds one object per row. */
  method GetHabitatsByDinosaurio(db: Database, d: int) returns (r: seq<Habitat>)
    ensures r == HabitatsDeDinosaurio(db.habitats, db.dinosauriosHabitats, d)
  {
    var filas := Vinculados(db.habitats, db.dinosauriosHabitats, d);
    r := [];
    for i := 0 to |filas|
      invariant |r| == i
      invariant forall k :: 0 <= k < i ==> r[k] == SinImagen(filas[k])
    {
      r := r + [SinImagen(filas[i])];
    }
  }

  /** The habitats of a dinosaur are exactly the stored habitats linked to it, each
      without its image. */
  lemma HabitatsDeDinosaurioMiembros(rows: seq<Habitat>, links: set<(int, int)>, d: int, x: Habitat)
    ensures x in HabitatsDeDinosaurio(rows, links, d)
            <==> exists h :: h in rows && (d, h.id) in links && x == SinImagen(h)
  {
    var p := (h: Habitat) => (d, h.id) in links;
    var v := Vinculados(rows, links, d);
    FilterIn(rows, p);
    SortByPermutation(Filter(rows, p), NombreLe);
    var r := HabitatsDeDinosaurio(rows, links, d);
    if x in r {
      var i :| 0 <= i < |r| && r[i] == x;
      assert v[i] in v;
    }
    if h :| h in rows && (d, h.id) in links && x == SinImagen(h) {
      assert h in v;
      var i :| 0 <= i < |v| && v[i] == h;
      assert r[i] == x;
    }
  }

  /** They come back ordered by name, and none carries an image. */
  lemma HabitatsDeDinosaurioOrdenados(rows: seq<Habitat>, links: set<(int, int)>, d: int)
    ensures SortedBy(HabitatsDeDinosaurio(rows, links, d), NombreLe)
    ensures forall i :: 0 <= i < |HabitatsDeDinosaurio(rows, links, d)| ==>
              HabitatsDeDinosaurio(rows, links, d)[i].imagen.None?
  {
    LexLeByKey((h: Habitat) => h.nombre, NombreLe);
    SortBySorted(Filter(rows, (h: Habitat) => (d, h.id) in links), NombreLe);
  }
}
