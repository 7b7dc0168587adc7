/** routers/dinosaurios_router.py: the listing of dinosaurs with its query-string
    filters, and the create and edit form handlers with their image file names and
    their bookkeeping of the dinosaur-habitat links. */
module DinosauriosRouter {
  import opened Wrappers
  import opened Text
  import opened Tables
  import opened Catalogo
  import opened Store
  import opened Sesion
  import opened DinosaurioRepositorio
  import opened ComentariosRouter
  import opened Consultas

  /** The message of the ValueError `int(s)` raises on a string that is not a number. */
  const ErrorEntero := "invalid literal for int() with base 10"

  /** `_parse_int`: None and `""` give None; any other string goes to `int()`, which
      may raise. */
  function ParseIntOpcional(valor: Option<string>): (r: Result<Option<int>>)
    ensures r == Ok(None) <==> valor.None? || valor == Some("")
    ensures r.Err? <==> valor.Some? && valor.value != "" && ParseInt(valor.value).None?
    ensures r.Ok? && r.value.Some? ==> Some(r.value.value) == ParseInt(valor.value)
  {
    if valor.None? || valor.value == "" then Ok(None)
    else match ParseInt(valor.value)
      case Some(n) => Ok(Some(n))
      case None => Err(ErrorEntero)
  }

  /** What a form field that rendered the number `n` reads back as. */
  lemma ParseIntOpcionalTexto(n: int)
    ensures ParseIntOpcional(Some(IntToString(n))) == Ok(Some(n))
  {
    ParseIntToString(n);
  }

  /** `int(x) if x and x.strip() else None`: how `listar_dinosaurios` reads its
      `era_id` and `region_id` query strings. */
  function IdDeConsulta(valor: Option<string>): (r: Result<Option<int>>)
    ensures r == Ok(None) <==> valor.None? || AllSpace(valor.value)
  {
    StripVacio(if valor.Some? then valor.value else "");
    if valor.Some? && valor.value != "" && Strip(valor.value) != "" then
      match ParseInt(valor.value)
      case Some(n) => Ok(Some(n))
      case None => Err(ErrorEntero)
    else Ok(None)
  }

  /** The listing and the forms read ids alike, except for a non-empty all-whitespace
      string: the listing ignores it, `_parse_int` fails on it. */
  lemma IdDeConsultaFrenteAParseInt(valor: Option<string>)
    ensures valor.Some? && valor.value != "" && AllSpace(valor.value)
            ==> IdDeConsulta(valor) == Ok(None) && ParseIntOpcional(valor).Err?
    ensures !(valor.Some? && valor.value != "" && AllSpace(valor.value))
            ==> IdDeConsulta(valor) == ParseIntOpcional(valor)
  {
    if valor.Some? {
      StripVacio(valor.value);
    }
  }

  /** `listar_dinosaurios`: reads the two id strings, then asks `get_all`; a malformed
      id raises before the query runs. The page's enrichment of each row is not modelled. */
  method ListarDinosaurios(db: Database, busqueda: Option<string>, eraId: Option<string>,
                           regionId: Option<string>, dieta: Option<string>)
    returns (r: Result<seq<Dinosaurio>>)
    ensures IdDeConsulta(eraId).Err? || IdDeConsulta(regionId).Err? <==> r.Err?
    ensures r.Ok? ==> r.value == Seleccion(db.dinosaurios, busqueda, IdDeConsulta(eraId).value,
                                           IdDeConsulta(regionId).value, dieta)
  {
    var era := IdDeConsulta(eraId);
    if era.Err? {
      return Err(era.error);
    }
    var region := IdDeConsulta(regionId);
    if region.Err? {
      return Err(region.error);
    }
    var filas := GetAll(db, busqueda, era.value, region.value, dieta);
    r := Ok(filas);
  }

  /** Asking for era `"0"` lists what asking for no era lists: the id 0 is falsy. */
  lemma EraCeroSinFiltro(rows: seq<Dinosaurio>, busqueda: Option<string>, regionId: Option<int>,
                         dieta: Option<string>)
    ensures IdDeConsulta(Some("0")) == Ok(Some(0))
    ensures Seleccion(rows, busqueda, Some(0), regionId, dieta) == Seleccion(rows, busqueda, None, regionId, dieta)
  {
    assert Strip("0") == "0" by {
      StripStripped("0");
    }
    assert DigitsValue("0") == 0 by {
      assert "0"[..0] == [];
    }
  }

  /** `PurePosixPath(p).name`: the last component of the path, empty components and
      `.` components dropped; `""` when there is none. */
  function NombreFinal(p: string): (n: string)
    ensures '/' !in n
  {
    var partes := Filter(Split(p, '/'), (x: string) => x != "" && x != ".");
    FilterIn(Split(p, '/'), (x: string) => x != "" && x != ".");
    if partes == [] then "" else assert partes[|partes| - 1] in Split(p, '/'); partes[|partes| - 1]
  }

  /** `Path(p).suffix`: from the last dot of the name to its end, when that dot is
      neither the first nor the last character of the name; `""` otherwise. */
  function Sufijo(p: string): (r: string)
    ensures r == "" || (|r| >= 2 && r[0] == '.' && '.' !in r[1..] && '/' !in r)
  {
    var n := NombreFinal(p);
    var i := UltimaPosicion(n, '.');
    if 0 < i < |n| - 1 then
      assert forall k :: 0 <= k < |n[i..]| ==> n[i..][k] == n[i + k];
      n[i..]
    else ""
  }

  /** An upload named `base.ext` keeps `.ext` as its extension. */
  lemma SufijoDeNombreSimple(base: string, ext: string)
    requires base != "" && ext != ""
    requires '/' !in base && '/' !in ext && '.' !in ext
    ensures Sufijo(base + "." + ext) == "." + ext
  {
    var p := base + "." + ext;
    assert p == base + ['.'] + ext;
    assert '/' !in p;
    NombreFinalSimple(p);
    UltimaPosicionTras(base, '.', ext);
    assert p[|base|..] == "." + ext;
  }

  /** A name without slashes is its own last component. */
  lemma NombreFinalSimple(p: string)
    requires '/' !in p && p != "" && p != "."
    ensures NombreFinal(p) == p
  {
    SplitSinSeparador(p, '/');
    var resto: seq<string> := [p][1..];
    assert resto == [];
  }

  /** `f"dino_{nombre.replace(' ', '_')}_{id}{file_extension}"`. */
  function NombreArchivo(nombre: string, id: string, extension: string): string {
    "dino_" + ReplaceChar(nombre, ' ', '_') + "_" + id + extension
  }

  /** `f"/uploads/{file_name}"`: the path stored in the `imagen` column. */
  function RutaImagen(nombreArchivo: string): string {
    "/uploads/" + nombreArchivo
  }

  /** Python's `str(v)` inside an f-string, for a session value. */
  function Texto(v: Value): string {
    match v
    case VInt(i) => IntToString(i)
    case VStr(s) => s
    case VBool(b) => if b then "True" else "False"
    case VNone => "None"
  }

  /** The stored path sits in `/uploads/`, starts with `dino_`, ends with the upload's
      extension, and has no space unless the id or the extension has one. */
  lemma RutaImagenForma(nombre: string, id: string, extension: string)
    ensures StartsWith(RutaImagen(NombreArchivo(nombre, id, extension)), "/uploads/dino_")
    ensures var r := RutaImagen(NombreArchivo(nombre, id, extension));
            r[|r| - |extension|..] == extension
    ensures ' ' !in id + extension ==> ' ' !in RutaImagen(NombreArchivo(nombre, id, extension))
  {
    var m := ReplaceChar(nombre, ' ', '_');
    var r := RutaImagen(NombreArchivo(nombre, id, extension));
    assert r == "/uploads/dino_" + m + "_" + id + extension;
    assert ' ' !in m;
    if ' ' !in id + extension {
      assert r == "/uploads/dino_" + (m + "_") + (id + extension);
      assert ' ' !in "/uploads/dino_";
    }
  }

  /** Spaces and underscores in a name are indistinguishable in the file name: a
      dinosaur named `"T rex"` and one named `"T_rex"` uploading under the same id
      and extension write the same file. */
  lemma NombresConEspacioColisionan(id: string, extension: string)
    ensures NombreArchivo("T rex", id, extension) == NombreArchivo("T_rex", id, extension)
  {
    assert ReplaceChar("T rex", ' ', '_') == "T_rex";
    assert ReplaceChar("T_rex", ' ', '_') == "T_rex";
  }

  /** `if imagen and imagen.filename`: a file part was sent and it carries a name. */
  predicate SubidaConNombre(subida: Option<string>) {
    subida.Some? && subida.value != ""
  }

  /** The `imagen` column `crear_dinosaurio` stores: the uploaded file's path, named
      after the creating user's session id, or None without an upload. */
  function ImagenNueva(subida: Option<string>, nombre: string, usuarioId: Value): Option<string> {
    if SubidaConNombre(subida) then Some(RutaImagen(NombreArchivo(nombre, Texto(usuarioId), Sufijo(subida.value))))
    else None
  }

  /** The `imagen` column `actualizar_dinosaurio` writes: a new upload's path, named
      after the dinosaur's id; otherwise the stored row's image, or None without a row. */
  function ImagenEditada(actual: Option<Dinosaurio>, subida: Option<string>, nombre: string, id: int): Option<string> {
    if SubidaConNombre(subida) then Some(RutaImagen(NombreArchivo(nombre, IntToString(id), Sufijo(subida.value))))
    else if actual.Some? then actual.value.imagen
    else None
  }

  /** `habitats_seleccionados or []`. */
  function Seleccionados(seleccion: Option<seq<int>>): seq<int> {
    if seleccion.Some? then seleccion.value else []
  }

  /** The links of dinosaur `d` to each habitat in `hs`. */
  function Enlaces(d: int, hs: seq<int>): set<(int, int)> {
    set h | h in hs :: (d, h)
  }

  /** The habitat ids linked to dinosaur `d`. */
  function Actuales(links: set<(int, int)>, d: int): set<int> {
    set p | p in links && p.0 == d :: p.1
  }

  /** The link table once dinosaur `d` is linked to exactly the habitats `nuevos`. */
  function Reconciliado(links: set<(int, int)>, d: int, nuevos: seq<int>): set<(int, int)> {
    SinVinculos(links, d) + Enlaces(d, nuevos)
  }

  /** The links the reconciliation removes: current habitats not selected. */
  function Quitados(links: set<(int, int)>, d: int, nuevos: seq<int>): set<(int, int)> {
    set p | p in links && p.0 == d && p.1 !in nuevos
  }

  /** The links the reconciliation adds: selected habitats not current. */
  function Agregados(links: set<(int, int)>, d: int, nuevos: seq<int>): set<(int, int)> {
    set h | h in nuevos && h !in Actuales(links, d) :: (d, h)
  }

  /** The links to the habitats `hs` are the pairs of `d` with a member of `hs`. */
  lemma EnlacesMiembro(d: int, hs: seq<int>, h: int)
    ensures (d, h) in Enlaces(d, hs) <==> h in hs
  {
    if h in hs {
      assert (d, h) in Enlaces(d, hs);
    }
  }

  /** Removing current - new and adding new - current leaves the dinosaur linked to
      exactly the selection and every other dinosaur's links as they were; the links
      in both sets are neither removed nor added. */
  lemma ReconciliacionPorDiferencia(links: set<(int, int)>, d: int, nuevos: seq<int>)
    ensures (links - Quitados(links, d, nuevos)) + Agregados(links, d, nuevos) == Reconciliado(links, d, nuevos)
    ensures Actuales(Reconciliado(links, d, nuevos), d) == set h | h in nuevos
    ensures forall p: (int, int) :: p.0 != d ==> (p in Reconciliado(links, d, nuevos) <==> p in links)
    ensures forall h :: h in Actuales(links, d) && h in nuevos
              ==> (d, h) !in Quitados(links, d, nuevos) && (d, h) !in Agregados(links, d, nuevos)
  {
    var izq := (links - Quitados(links, d, nuevos)) + Agregados(links, d, nuevos);
    forall p | p in izq
      ensures p in Reconciliado(links, d, nuevos)
    {
      if p.0 == d {
        assert p == (d, p.1);
        if p in Agregados(links, d, nuevos) {
          var h :| h in nuevos && h !in Actuales(links, d) && p == (d, h);
        } else {
          assert p in links && p !in Quitados(links, d, nuevos);
        }
        assert p.1 in nuevos;
        EnlacesMiembro(d, nuevos, p.1);
      }
    }
    forall p | p in Reconciliado(links, d, nuevos)
      ensures p in izq
    {
      if p.0 == d && p in links {
        assert p.1 in Actuales(links, d);
      }
    }
    var a := Actuales(Reconciliado(links, d, nuevos), d);
    forall h | h in nuevos
      ensures h in a
    {
      assert (d, h) in Enlaces(d, nuevos);
    }
  }

  /** The habitat part of `actualizar_dinosaurio`: removes each current link that is
      not selected, then adds each selected habitat that is not current. */
  method ReconciliarHabitats(db: Database, d: int, seleccion: Option<seq<int>>)
    modifies db`dinosauriosHabitats
    ensures db.dinosauriosHabitats
            == (old(db.dinosauriosHabitats) - Quitados(old(db.dinosauriosHabitats), d, Seleccionados(seleccion)))
               + Agregados(old(db.dinosauriosHabitats), d, Seleccionados(seleccion))
    ensures db.dinosauriosHabitats == Reconciliado(old(db.dinosauriosHabitats), d, Seleccionados(seleccion))
  {
    ghost var inicial := db.dinosauriosHabitats;
    var actuales := GetHabitats(db, d);
    var nuevos := Seleccionados(seleccion);
    assert forall h :: h in actuales <==> h in Actuales(inicial, d);
    for i := 0 to |actuales|
      invariant db.dinosauriosHabitats
                == inicial - set p | p in inicial && p.0 == d && p.1 in actuales[..i] && p.1 !in nuevos
    {
      assert actuales[..i + 1] == actuales[..i] + [actuales[i]];
      if actuales[i] !in nuevos {
        QuitarHabitat(db, d, actuales[i]);
      }
    }
    assert actuales[..|actuales|] == actuales;
    assert forall p :: p in inicial && p.0 == d ==> p == (d, p.1) && p.1 in actuales;
    assert db.dinosauriosHabitats == inicial - Quitados(inicial, d, nuevos);
    ghost var intermedio := db.dinosauriosHabitats;
    for i := 0 to |nuevos|
      invariant db.dinosauriosHabitats == intermedio + set h | h in nuevos[..i] && h !in actuales :: (d, h)
    {
      assert nuevos[..i + 1] == nuevos[..i] + [nuevos[i]];
      if nuevos[i] !in actuales {
        AgregarHabitat(db, d, nuevos[i]);
      }
    }
    assert nuevos[..|nuevos|] == nuevos;
    assert db.dinosauriosHabitats == intermedio + Agregados(inicial, d, nuevos);
    ReconciliacionPorDiferencia(inicial, d, nuevos);
  }

  /** One more habitat in the list is one more link. */
  lemma EnlacesUnoMas(d: int, hs: seq<int>, i: int)
    requires 0 <= i < |hs|
    ensures Enlaces(d, hs[..i + 1]) == Enlaces(d, hs[..i]) + {(d, hs[i])}
  {
    var a := hs[..i + 1];
    var b := hs[..i];
    assert a == b + [hs[i]];
    forall p | p in Enlaces(d, a)
      ensures p in Enlaces(d, b) + {(d, hs[i])}
    {
      var h :| h in a && p == (d, h);
      if h != hs[i] {
        assert h in b;
      }
    }
    forall p | p in Enlaces(d, b) + {(d, hs[i])}
      ensures p in Enlaces(d, a)
    {
      if p != (d, hs[i]) {
        var h :| h in b && p == (d, h);
        assert h in b + [hs[i]];
      } else {
        assert a[i] == hs[i];
      }
    }
  }

  /** The loop of `crear_dinosaurio` that links the new dinosaur to each selected habitat. */
  method EnlazarHabitats(db: Database, d: int, hs: seq<int>)
    modifies db`dinosauriosHabitats
    ensures db.dinosauriosHabitats == old(db.dinosauriosHabitats) + Enlaces(d, hs)
  {
    ghost var inicial := db.dinosauriosHabitats;
    for i := 0 to |hs|
      invariant db.dinosauriosHabitats == inicial + Enlaces(d, hs[..i])
    {
      EnlacesUnoMas(d, hs, i);
      AgregarHabitat(db, d, hs[i]);
    }
    assert hs[..|hs|] == hs;
  }

  /** The row `crear_dinosaurio` hands to the insert. */
  function NuevoDinosaurio(nombre: string, descripcion: Option<string>, tipo: Option<string>,
                           dieta: Option<string>, eraId: Option<int>, regionId: Option<int>,
                           subida: Option<string>, usuario: SessionUser): Dinosaurio
  {
    Dinosaurio(0, nombre, descripcion, tipo, dieta, eraId, regionId, ComoEntero(usuario.id),
               ImagenNueva(subida, nombre, usuario.id))
  }

  /** `crear_dinosaurio`: a malformed era or region id raises before anything is
      written; otherwise the row is inserted and linked to every selected habitat,
      and the page of the new dinosaur is the answer. */
  method CrearDinosaurio(db: Database, nombre: string, descripcion: Option<string>, tipo: Option<string>,
                         dieta: Option<string>, eraId: Option<string>, regionId: Option<string>,
                         seleccion: Option<seq<int>>, subida: Option<string>, usuario: SessionUser)
    returns (r: Result<string>)
    requires db.DinosauriosValidos()
    modifies db`dinosaurios, db`siguienteDinosaurioId, db`dinosauriosHabitats
    ensures db.DinosauriosValidos()
    ensures ParseIntOpcional(eraId).Err? || ParseIntOpcional(regionId).Err?
            ==> r.Err? && unchanged(db`dinosaurios, db`siguienteDinosaurioId, db`dinosauriosHabitats)
    ensures ParseIntOpcional(eraId).Ok? && ParseIntOpcional(regionId).Ok? ==>
              var id := old(db.siguienteDinosaurioId);
              var fila := NuevoDinosaurio(nombre, descripcion, tipo, dieta, ParseIntOpcional(eraId).value,
                                          ParseIntOpcional(regionId).value, subida, usuario);
              && r == Ok(RedireccionFicha(id))
              && db.dinosaurios == old(db.dinosaurios) + [fila.(id := id)]
              && db.dinosauriosHabitats == old(db.dinosauriosHabitats) + Enlaces(id, Seleccionados(seleccion))
  {
    var era := ParseIntOpcional(eraId);
    if era.Err? {
      return Err(era.error);
    }
    var region := ParseIntOpcional(regionId);
    if region.Err? {
      return Err(region.error);
    }
    var fila := NuevoDinosaurio(nombre, descripcion, tipo, dieta, era.value, region.value, subida, usuario);
    var insertado := InsertarDinosaurio(db, fila);
    var id := insertado.value;
    if seleccion.Some? && seleccion.value != [] {
      EnlazarHabitats(db, id, seleccion.value);
    } else {
      assert Enlaces(id, Seleccionados(seleccion)) == {};
    }
    r := Ok(RedireccionFicha(id));
  }

  /** The row `actualizar_dinosaurio` hands to the update. */
  function DinosaurioEditado(id: int, nombre: string, descripcion: Option<string>, tipo: Option<string>,
                             dieta: Option<string>, eraId: Option<int>, regionId: Option<int>,
                             imagen: Option<string>): Dinosaurio
  {
    Dinosaurio(id, nombre, descripcion, tipo, dieta, eraId, regionId, None, imagen)
  }

  /** `actualizar_dinosaurio`: a malformed id raises before anything is written; a
      missing dinosaur makes the update raise and the links stay; otherwise the row
      is updated and its links are reconciled with the selection. */
  method ActualizarDinosaurioHandler(db: Database, id: int, nombre: string, descripcion: Option<string>,
                                     tipo: Option<string>, dieta: Option<string>, eraId: Option<string>,
                                     regionId: Option<string>, seleccion: Option<seq<int>>,
                                     subida: Option<string>)
    returns (r: Result<string>)
    requires db.DinosauriosValidos()
    modifies db`dinosaurios, db`dinosauriosHabitats
    ensures db.DinosauriosValidos()
    ensures ParseIntOpcional(eraId).Err? || ParseIntOpcional(regionId).Err?
            ==> r.Err? && unchanged(db`dinosaurios, db`dinosauriosHabitats)
    ensures ParseIntOpcional(eraId).Ok? && ParseIntOpcional(regionId).Ok? ==>
              var actual := GetById(old(db.dinosaurios), id);
              var fila := DinosaurioEditado(id, nombre, descripcion, tipo, dieta, ParseIntOpcional(eraId).value,
                                            ParseIntOpcional(regionId).value, ImagenEditada(actual, subida, nombre, id));
              && db.dinosaurios == ActualizarFilas(old(db.dinosaurios), fila)
              && (actual.None? ==> r == Err(ErrorActualizar) && unchanged(db`dinosaurios, db`dinosauriosHabitats))
              && (actual.Some? ==>
                    && r == Ok(RedireccionFicha(id))
                    && db.dinosauriosHabitats == Reconciliado(old(db.dinosauriosHabitats), id, Seleccionados(seleccion)))
  {
    var actual := GetById(db.dinosaurios, id);
    var imagen := ImagenEditada(actual, subida, nombre, id);
    var era := ParseIntOpcional(eraId);
    if era.Err? {
      return Err(era.error);
    }
    var region := ParseIntOpcional(regionId);
    if region.Err? {
      return Err(region.error);
    }
    var fila := DinosaurioEditado(id, nombre, descripcion, tipo, dieta, era.value, region.value, imagen);
    var actualizado := ActualizarDinosaurio(db, fila);
    if actualizado.Err? {
      return Err(actualizado.error);
    }
    ReconciliarHabitats(db, id, seleccion);
    r := Ok(RedireccionFicha(id));
  }

  /** Editing without a new upload keeps the stored image, and the author. */
  lemma EdicionConservaImagen(rows: seq<Dinosaurio>, id: int, nombre: string, descripcion: Option<string>,
                              tipo: Option<string>, dieta: Option<string>, eraId: Option<int>,
                              regionId: Option<int>, subida: Option<string>)
    requires GetById(rows, id).Some? && !SubidaConNombre(subida)
    ensures var fila := DinosaurioEditado(id, nombre, descripcion, tipo, dieta, eraId, regionId,
                                          ImagenEditada(GetById(rows, id), subida, nombre, id));
            var nueva := GetById(ActualizarFilas(rows, fila), id);
            && nueva.Some?
            && nueva.value.imagen == GetById(rows, id).value.imagen
            && nueva.value.creadorId == GetById(rows, id).value.creadorId
  {
    var fila := DinosaurioEditado(id, nombre, descripcion, tipo, dieta, eraId, regionId,
                                  ImagenEditada(GetById(rows, id), subida, nombre, id));
    ActualizarGetById(rows, fila);
  }
}
