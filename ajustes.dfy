/**
 * The settings side of `OrdenarArchivosPlugin`: the list of tracked metrics
 * with their sort direction, how it is rebuilt from the stored data
 * (`loadSettings`), and the command identifier derived from a metric's name
 * (`tenerMetricaId`).
 */
module Ajustes {
  import opened Texto

  datatype Option<T> = None | Some(value: T)

  /** A tracked metric: its frontmatter key and whether lower values rank better. */
  datatype Metrica = Metrica(nombre: string, esAscendiente: bool)

  /**
   * The stored settings object as `loadData` returns it: absent altogether
   * (`null`, no data file yet) or an object that may lack either key.
   */
  datatype Guardado = Guardado(metricas: Option<seq<string>>, esAscendientes: Option<seq<bool>>)

  /** `Object.assign({}, DEFAULT_SETTINGS, datos).metricas`: a missing key falls back to the empty default. */
  function MetricasGuardadas(datos: Option<Guardado>): seq<string>
  {
    if datos.Some? && datos.value.metricas.Some? then datos.value.metricas.value else []
  }

  /** The same for `esAscendientes`. */
  function DireccionesGuardadas(datos: Option<Guardado>): seq<bool>
  {
    if datos.Some? && datos.value.esAscendientes.Some? then datos.value.esAscendientes.value else []
  }

  /** The direction stored for the metric at `indice`; a shorter flags list means descending. */
  function DireccionEn(direcciones: seq<bool>, indice: nat): bool
  {
    if indice < |direcciones| then direcciones[indice] else false
  }

  /** `findIndex(m => m.nombre == nombre)`: the first entry with that name, or -1. */
  function BuscarNombre(ajustes: seq<Metrica>, nombre: string): (i: int)
    ensures -1 <= i < |ajustes|
    ensures i >= 0 ==> ajustes[i].nombre == nombre && forall k :: 0 <= k < i ==> ajustes[k].nombre != nombre
    ensures i == -1 <==> forall k :: 0 <= k < |ajustes| ==> ajustes[k].nombre != nombre
    decreases |ajustes|
  {
    if |ajustes| == 0 then -1
    else if ajustes[0].nombre == nombre then 0
    else
      var j := BuscarNombre(ajustes[1..], nombre);
      if j == -1 then -1 else j + 1
  }

  predicate TieneNombre(ajustes: seq<Metrica>, nombre: string)
  {
    exists k :: 0 <= k < |ajustes| && ajustes[k].nombre == nombre
  }

  /** No two entries share a name. */
  predicate NombresUnicos(ajustes: seq<Metrica>)
  {
    forall i, j :: 0 <= i < j < |ajustes| ==> ajustes[i].nombre != ajustes[j].nombre
  }

  /**
   * The settings after the first `k` stored names have been merged into
   * `previas`: a name already present is skipped, a new one is appended with
   * the direction stored at the same index.
   */
  function Fusionar(previas: seq<Metrica>, metricas: seq<string>, direcciones: seq<bool>, k: nat): (r: seq<Metrica>)
    requires k <= |metricas|
    ensures |previas| <= |r| <= |previas| + k
  {
    if k == 0 then previas
    else
      var antes := Fusionar(previas, metricas, direcciones, k - 1);
      if BuscarNombre(antes, metricas[k - 1]) < 0
      then antes + [Metrica(metricas[k - 1], DireccionEn(direcciones, k - 1))]
      else antes
  }

  /** Merging only appends: the earlier settings stay in place, in order. */
  lemma {:induction false} FusionarConservaPrevias(previas: seq<Metrica>, metricas: seq<string>, direcciones: seq<bool>, k: nat)
    requires k <= |metricas|
    ensures |Fusionar(previas, metricas, direcciones, k)| >= |previas|
    ensures Fusionar(previas, metricas, direcciones, k)[..|previas|] == previas
  {
    if k > 0 {
      FusionarConservaPrevias(previas, metricas, direcciones, k - 1);
    }
  }

  /** Merging never creates two entries with the same name. */
  lemma {:induction false} FusionarSinDuplicados(previas: seq<Metrica>, metricas: seq<string>, direcciones: seq<bool>, k: nat)
    requires k <= |metricas|
    requires NombresUnicos(previas)
    ensures NombresUnicos(Fusionar(previas, metricas, direcciones, k))
  {
    if k > 0 {
      FusionarSinDuplicados(previas, metricas, direcciones, k - 1);
    }
  }

  /** Every name among the first `k` stored names is tracked afterwards. */
  lemma {:induction false} FusionarCubre(previas: seq<Metrica>, metricas: seq<string>, direcciones: seq<bool>, k: nat)
    requires k <= |metricas|
    ensures forall i :: 0 <= i < k ==> TieneNombre(Fusionar(previas, metricas, direcciones, k), metricas[i])
  {
    if k > 0 {
      FusionarCubre(previas, metricas, direcciones, k - 1);
      var antes := Fusionar(previas, metricas, direcciones, k - 1);
      var despues := Fusionar(previas, metricas, direcciones, k);
      assert antes <= despues;
      forall i | 0 <= i < k ensures TieneNombre(despues, metricas[i]) {
        if i < k - 1 {
          var j :| 0 <= j < |antes| && antes[j].nombre == metricas[i];
          assert despues[j] == antes[j];
        } else if BuscarNombre(antes, metricas[k - 1]) >= 0 {
          var j := BuscarNombre(antes, metricas[k - 1]);
          assert despues[j] == antes[j];
        } else {
          assert despues[|antes|].nombre == metricas[i];
        }
      }
    }
  }

  /**
   * An entry merging may append after `previas`: its name was not tracked
   * before and comes from its FIRST occurrence among the first `k` stored
   * names, and its direction is the flag stored at that same index
   * (descending when the flags list is shorter).
   */
  predicate EntradaNueva(previas: seq<Metrica>, metricas: seq<string>, direcciones: seq<bool>, k: nat, m: Metrica)
    requires k <= |metricas|
  {
    && !TieneNombre(previas, m.nombre)
    && exists i :: 0 <= i < k && metricas[i] == m.nombre
                   && m.esAscendiente == DireccionEn(direcciones, i)
                   && forall i' :: 0 <= i' < i ==> metricas[i'] != m.nombre
  }

  /** An entry justified by the first `k - 1` stored names stays justified by the first `k`. */
  lemma EntradaNuevaCrece(previas: seq<Metrica>, metricas: seq<string>, direcciones: seq<bool>, k: nat, m: Metrica)
    requires 0 < k <= |metricas|
    requires EntradaNueva(previas, metricas, direcciones, k - 1, m)
    ensures EntradaNueva(previas, metricas, direcciones, k, m)
  {
    var i :| 0 <= i < k - 1 && metricas[i] == m.nombre
             && m.esAscendiente == DireccionEn(direcciones, i)
             && forall i' :: 0 <= i' < i ==> metricas[i'] != m.nombre;
  }

  /** The entry appended at step `k` is justified by the stored name at index `k - 1`. */
  lemma EntradaNuevaAnadida(previas: seq<Metrica>, metricas: seq<string>, direcciones: seq<bool>, k: nat)
    requires 0 < k <= |metricas|
    requires BuscarNombre(Fusionar(previas, metricas, direcciones, k - 1), metricas[k - 1]) < 0
    ensures EntradaNueva(previas, metricas, direcciones, k, Metrica(metricas[k - 1], DireccionEn(direcciones, k - 1)))
  {
    var antes := Fusionar(previas, metricas, direcciones, k - 1);
    FusionarConservaPrevias(previas, metricas, direcciones, k - 1);
    FusionarCubre(previas, metricas, direcciones, k - 1);
    forall i' | 0 <= i' < k - 1 ensures metricas[i'] != metricas[k - 1] {
      assert TieneNombre(antes, metricas[i']);
      var m :| 0 <= m < |antes| && antes[m].nombre == metricas[i'];
      assert antes[m].nombre != metricas[k - 1];
    }
    assert !TieneNombre(previas, metricas[k - 1]) by {
      forall m | 0 <= m < |previas| ensures previas[m].nombre != metricas[k - 1] {
        assert antes[m] == previas[m];
      }
    }
  }

  /** Every entry merging appends is an `EntradaNueva`. */
  lemma {:induction false} FusionarDireccion(previas: seq<Metrica>, metricas: seq<string>, direcciones: seq<bool>, k: nat)
    requires k <= |metricas|
    ensures var r := Fusionar(previas, metricas, direcciones, k);
            forall j :: |previas| <= j < |r| ==> EntradaNueva(previas, metricas, direcciones, k, r[j])
  {
    if k > 0 {
      FusionarDireccion(previas, metricas, direcciones, k - 1);
      var antes := Fusionar(previas, metricas, direcciones, k - 1);
      var r := Fusionar(previas, metricas, direcciones, k);
      forall j | |previas| <= j < |r| ensures EntradaNueva(previas, metricas, direcciones, k, r[j]) {
        if j < |antes| {
          assert r[j] == antes[j];
          EntradaNuevaCrece(previas, metricas, direcciones, k, r[j]);
        } else {
          EntradaNuevaAnadida(previas, metricas, direcciones, k);
        }
      }
    }
  }

  class OrdenarArchivosPlugin {
    /** The tracked metrics, in the order of the settings screen. */
    var settings: seq<Metrica>

    constructor ()
      ensures settings == []
    {
      settings := [];
    }

    /**
     * `loadSettings`: merge the stored names and direction flags into
     * `settings`, one name at a time, skipping names already tracked.
     */
    method LoadSettings(datos: Option<Guardado>)
      modifies this
      ensures var metricas := MetricasGuardadas(datos);
              settings == Fusionar(old(settings), metricas, DireccionesGuardadas(datos), |metricas|)
      ensures NombresUnicos(old(settings)) ==> NombresUnicos(settings)
    {
      var metricas := MetricasGuardadas(datos);
      var direcciones := DireccionesGuardadas(datos);
      ghost var previas := settings;
      var indice := 0;
      while indice < |metricas|
        invariant 0 <= indice <= |metricas|
        invariant settings == Fusionar(previas, metricas, direcciones, indice)
      {
        var metrica := metricas[indice];
        var esAscendiente := if indice < |direcciones| then direcciones[indice] else false;
        if BuscarNombre(settings, metrica) < 0 {
          settings := settings + [Metrica(metrica, esAscendiente)];
        }
        indice := indice + 1;
      }
      if NombresUnicos(previas) {
        FusionarSinDuplicados(previas, metricas, direcciones, |metricas|);
      }
    }

    /**
     * `tenerMetricaId`: the metric's name, trimmed, with every space turned
     * into `-`; used to build the command identifier `open-reordenar-<id>`.
     */
    method TenerMetricaId(metrica: string) returns (resultado: string)
      ensures resultado == MetricaId(metrica)
      ensures ' ' !in resultado
    {
      var recortada := Trim(metrica);
      resultado := "";
      for i := 0 to |recortada|
        invariant resultado == MetricaId(metrica)[..i]
      {
        resultado := resultado + [if recortada[i] == ' ' then '-' else recortada[i]];
      }
      MetricaIdSinEspacios(metrica);
    }
  }

  /** The command identifier of a metric: its trimmed name with each space replaced by a dash. */
  function MetricaId(metrica: string): (id: string)
    ensures |id| == |Trim(metrica)| <= |metrica|
  {
    var recortada := Trim(metrica);
    seq(|recortada|, i requires 0 <= i < |recortada| => if recortada[i] == ' ' then '-' else recortada[i])
  }

  /**
   * The identifier is as long as the trimmed name, keeps every other
   * character in place, and contains no space.
   */
  lemma MetricaIdSinEspacios(metrica: string)
    ensures var id, recortada := MetricaId(metrica), Trim(metrica);
            && |id| == |recortada|
            && (forall i :: 0 <= i < |id| && recortada[i] == ' ' ==> id[i] == '-')
            && (forall i :: 0 <= i < |id| && recortada[i] != ' ' ==> id[i] == recortada[i])
            && ' ' !in id
  {
    var id := MetricaId(metrica);
    forall i | 0 <= i < |id| ensures id[i] != ' ' { }
  }

  /** An identifier is its own identifier: it has no white space at either end and no space inside. */
  lemma MetricaIdIdempotente(metrica: string)
    ensures MetricaId(MetricaId(metrica)) == MetricaId(metrica)
  {
    var id, recortada := MetricaId(metrica), Trim(metrica);
    MetricaIdSinEspacios(metrica);
    if id != [] {
      assert id[0] == recortada[0];
      assert id[|id| - 1] == recortada[|recortada| - 1];
      assert Inicio(id) == 0;
      assert Fin(id) == |id|;
      assert Trim(id) == id;
    }
  }

  /**
   * Two names that differ only where one has a space and the other a dash
   * get the same command identifier, so registering one replaces the other.
   */
  lemma IdsColisionan()
    ensures "a b" != "a-b" && MetricaId("a b") == MetricaId("a-b")
  {
    assert Trim("a b") == "a b" by { assert Inicio("a b") == 0; assert Fin("a b") == 3; }
    assert Trim("a-b") == "a-b" by { assert Inicio("a-b") == 0; assert Fin("a-b") == 3; }
  }
}
