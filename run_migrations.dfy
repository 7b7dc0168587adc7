/** run_migrations.py: `ejecutar_migraciones` runs the complete database script one
    statement at a time, committing each statement that succeeds and rolling back
    each one that fails, and carries on to the end. */
module EjecucionMigraciones {
  import opened Wrappers
  import opened Text
  import opened GuionSql
  import opened MigracionEdicionVotos

  /** `ejecutar_migraciones`: without a connection or without the file it answers False
      and runs nothing; otherwise every statement of the file is sent in order, and
      the answer is True whatever the server said. `confirmadas` are the statements
      committed, the others having been rolled back. */
  method EjecutarMigraciones(conecta: bool, archivo: Option<string>, servidor: Servidor)
    returns (exito: bool, intentadas: seq<string>, confirmadas: seq<string>)
    ensures exito <==> conecta && archivo.Some?
    ensures !exito ==> intentadas == [] && confirmadas == []
    ensures exito ==> intentadas == Sentencias(archivo.value)
    ensures confirmadas == Confirmadas(intentadas, servidor)
  {
    if !conecta || archivo.None? {
      return false, [], [];
    }
    var piezas := Split(archivo.value, ';');
    intentadas := [];
    confirmadas := [];
    for i := 0 to |piezas|
      invariant intentadas == NoVacias(piezas[..i])
      invariant confirmadas == Confirmadas(intentadas, servidor)
    {
      NoVaciasSiguiente(piezas, i);
      var sentencia := Strip(piezas[i]);
      if sentencia != [] {
        ghost var previas := intentadas;
        intentadas := intentadas + [sentencia];
        assert intentadas[..|intentadas| - 1] == previas;
        var error := servidor(sentencia);
        if error.None? {
          confirmadas := confirmadas + [sentencia];
        }
      }
    }
    assert piezas[..|piezas|] == piezas;
    exito := true;
  }

  /** Comments are not removed here: a file holding only the comment `-- a` sends it to
      the server as a statement, where `run_migration` would send nothing. */
  lemma ComentariosEnviados()
    ensures Sentencias("-- a") == ["-- a"]
    ensures SentenciasMigracion("-- a") == []
  {
    SplitSinSeparador("-- a", ';');
    SplitSinSeparador("-- a", '\n');
    StripStripped("-- a");
    assert ["-- a"][..0] == [];
    assert StartsWith("-- a", "--");
    SoloComentarios("-- a");
  }
}
