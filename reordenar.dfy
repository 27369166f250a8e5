/**
 * The pairwise-comparison engine of `ReordenarModal`. The modal holds the
 * notes that carry one metric, in a fixed-length array whose slots never
 * move; each round shows two ADJACENT slots, the user says which one is
 * better, and if the stored values disagree with that verdict under the
 * metric's direction the two values trade places. Closing a round writes
 * the values of the two slots back to the notes.
 */
module Reordenar {

  /** One note of the session: its vault path, its display name and its current metric value. */
  datatype Archivo = Archivo(path: string, name: string, metrica: int)

  /** Which shown slot the user picked as the better one (`'izq'` / `'der'`). */
  datatype Lado = Izq | Der

  /** One frontmatter write of a flush: set key `clave` of the note at `path` to `valor`. */
  datatype Escritura = Escritura(path: string, clave: string, valor: int)

  // ---------------------------------------------------------------------------
  // The answer rule

  /**
   * `debeCambiar`: the stored values contradict the verdict "mejor is better
   * than peor". Ascending means lower values rank better.
   */
  predicate DebeCambiar(esAscendente: bool, metricaMejor: int, metricaPeor: int)
    ensures DebeCambiar(esAscendente, metricaMejor, metricaPeor) <==>
              metricaMejor != metricaPeor && (esAscendente <==> metricaMejor > metricaPeor)
  {
    if esAscendente then metricaMejor > metricaPeor else metricaMejor < metricaPeor
  }

  /** The stored values already agree with the verdict "mejor is at least as good as peor". */
  predicate EnOrden(esAscendente: bool, metricaMejor: int, metricaPeor: int)
  {
    if esAscendente then metricaMejor <= metricaPeor else metricaMejor >= metricaPeor
  }

  /** The swap is decided exactly when the values disagree with the verdict; equal values never swap. */
  lemma DebeCambiarSiNoEnOrden(esAscendente: bool, mejor: int, peor: int)
    ensures DebeCambiar(esAscendente, mejor, peor) <==> !EnOrden(esAscendente, mejor, peor)
    ensures mejor == peor ==> !DebeCambiar(esAscendente, mejor, peor)
    ensures DebeCambiar(esAscendente, mejor, peor) ==> !DebeCambiar(esAscendente, peor, mejor)
  {
  }

  /** The metric values of the slots, in slot order. */
  function Valores(archivos: seq<Archivo>): (v: seq<int>)
    ensures |v| == |archivos|
  {
    seq(|archivos|, i requires 0 <= i < |archivos| => archivos[i].metrica)
  }

  /**
   * The effect of an answer on the slots (lines 208-215): exchange the metric
   * values of `mejor` and `peor` when `debeCambiar` holds, otherwise nothing.
   */
  function Responder(esAscendente: bool, archivos: seq<Archivo>, mejor: int, peor: int): (r: seq<Archivo>)
    requires 0 <= mejor < |archivos| && 0 <= peor < |archivos| && mejor != peor
    ensures |r| == |archivos|
    ensures forall i :: 0 <= i < |r| && i != mejor && i != peor ==> r[i] == archivos[i]
    ensures r[mejor].metrica + r[peor].metrica == archivos[mejor].metrica + archivos[peor].metrica
  {
    var metricaMejor, metricaPeor := archivos[mejor].metrica, archivos[peor].metrica;
    if DebeCambiar(esAscendente, metricaMejor, metricaPeor)
    then archivos[mejor := archivos[mejor].(metrica := metricaPeor)][peor := archivos[peor].(metrica := metricaMejor)]
    else archivos
  }

  /** Exchanging two values in a sequence keeps its multiset of values. */
  lemma IntercambioConservaMultiset(v: seq<int>, i: int, j: int)
    requires 0 <= i < |v| && 0 <= j < |v| && i != j
    ensures multiset(v[i := v[j]][j := v[i]]) == multiset(v)
  {
  }

  /**
   * An answer touches nothing but the values of the two slots: the length,
   * every path and name and every other slot are kept; the two values are
   * exchanged exactly when `debeCambiar` holds.
   */
  lemma ResponderSoloIntercambia(esAscendente: bool, archivos: seq<Archivo>, mejor: int, peor: int)
    requires 0 <= mejor < |archivos| && 0 <= peor < |archivos| && mejor != peor
    ensures var r := Responder(esAscendente, archivos, mejor, peor);
            && |r| == |archivos|
            && (forall i :: 0 <= i < |r| ==> r[i].path == archivos[i].path && r[i].name == archivos[i].name)
            && (forall i :: 0 <= i < |r| && i != mejor && i != peor ==> r[i] == archivos[i])
            && (DebeCambiar(esAscendente, archivos[mejor].metrica, archivos[peor].metrica) ==>
                  r[mejor].metrica == archivos[peor].metrica && r[peor].metrica == archivos[mejor].metrica)
            && (!DebeCambiar(esAscendente, archivos[mejor].metrica, archivos[peor].metrica) ==> r == archivos)
  {
  }

  /** An answer keeps the multiset of metric values: values are exchanged, never created or lost. */
  lemma ResponderConservaValores(esAscendente: bool, archivos: seq<Archivo>, mejor: int, peor: int)
    requires 0 <= mejor < |archivos| && 0 <= peor < |archivos| && mejor != peor
    ensures multiset(Valores(Responder(esAscendente, archivos, mejor, peor))) == multiset(Valores(archivos))
  {
    if DebeCambiar(esAscendente, archivos[mejor].metrica, archivos[peor].metrica) {
      var r := Responder(esAscendente, archivos, mejor, peor);
      var v := Valores(archivos);
      assert Valores(r) == v[mejor := v[peor]][peor := v[mejor]];
      IntercambioConservaMultiset(v, mejor, peor);
    }
  }

  /** After an answer the stored values agree with it. */
  lemma ResponderDejaEnOrden(esAscendente: bool, archivos: seq<Archivo>, mejor: int, peor: int)
    requires 0 <= mejor < |archivos| && 0 <= peor < |archivos| && mejor != peor
    ensures var r := Responder(esAscendente, archivos, mejor, peor);
            EnOrden(esAscendente, r[mejor].metrica, r[peor].metrica)
  {
  }

  /** Giving the same answer a second time changes nothing. */
  lemma ResponderIdempotente(esAscendente: bool, archivos: seq<Archivo>, mejor: int, peor: int)
    requires 0 <= mejor < |archivos| && 0 <= peor < |archivos| && mejor != peor
    ensures var r := Responder(esAscendente, archivos, mejor, peor);
            Responder(esAscendente, r, mejor, peor) == r
  {
    ResponderDejaEnOrden(esAscendente, archivos, mejor, peor);
  }

  // ---------------------------------------------------------------------------
  // Choosing a round

  /** The slot compared with `principal`: the one before it, or slot 1 when `principal` is the first. */
  function Secundario(principal: int): (secundario: int)
    ensures secundario != principal
    ensures principal >= 0 ==> secundario >= 0 && (secundario == principal - 1 || secundario == principal + 1)
  {
    if principal == 0 then 1 else principal - 1
  }

  /** The two slots of a round are distinct, in range and adjacent. */
  lemma SecundarioAdyacente(n: nat, principal: int)
    requires n >= 2 && 0 <= principal < n
    ensures var secundario := Secundario(principal);
            && 0 <= secundario < n
            && (secundario == principal - 1 || secundario == principal + 1)
            && (principal == 0 <==> secundario == principal + 1)
  {
  }

  /**
   * The redraw condition AS WRITTEN (lines 245-247): the pair repeats the
   * previous round's pair, in either order, once there has been a round.
   */
  predicate RepiteUltima(ultima: seq<int>, principal: int, secundario: int)
    requires |ultima| != 1
    ensures RepiteUltima(ultima, principal, secundario) ==>
              |ultima| >= 2 && (principal == ultima[0] || principal == ultima[1])
              && (secundario == ultima[0] || secundario == ultima[1])
  {
    |ultima| > 0 &&
    ((ultima[0] == principal && ultima[1] == secundario) ||
     (ultima[1] == principal && ultima[0] == secundario))
  }

  /** A draw repeats the previous round exactly when the two pairs are equal as unordered pairs. */
  lemma RepiteUltimaComoPar(ultima: seq<int>, principal: int, secundario: int)
    requires |ultima| != 1
    ensures RepiteUltima(ultima, principal, secundario) <==>
              |ultima| >= 2 && multiset{principal, secundario} == multiset(ultima[..2])
  {
    if |ultima| > 0 {
      ParIgual(principal, secundario, ultima[0], ultima[1]);
      assert ultima[..2] == [ultima[0], ultima[1]];
    }
  }

  /** Two unordered pairs are equal exactly when they match in one order or the other. */
  lemma ParIgual(a: int, b: int, c: int, d: int)
    ensures multiset{a, b} == multiset{c, d} <==> (a == c && b == d) || (a == d && b == c)
  {
    if multiset{a, b} == multiset{c, d} {
      assert a in multiset{c, d};
      if a == c {
        assert multiset{b} == multiset{a, b} - multiset{a} == multiset{d};
        assert b in multiset{d};
      } else {
        assert multiset{b} == multiset{a, b} - multiset{a} == multiset{c};
        assert b in multiset{c};
      }
    }
  }

  /**
   * With two notes every draw gives the pair {0, 1}; once that pair has been
   * shown, the condition as written rejects every draw, so the loop can
   * never end.
   */
  lemma RedibujoSinFinConDos(ultima: seq<int>)
    requires |ultima| == 2 && 0 <= ultima[0] < 2 && ultima[1] == Secundario(ultima[0])
    ensures forall principal :: 0 <= principal < 2 ==> RepiteUltima(ultima, principal, Secundario(principal))
  {
  }

  /**
   * The redraw condition as corrected: with two notes there is one pair
   * only, so repeat-avoidance is skipped.
   */
  predicate DebeRedibujar(n: nat, ultima: seq<int>, principal: int, secundario: int)
    requires |ultima| != 1
    ensures n <= 2 || ultima == [] ==> !DebeRedibujar(n, ultima, principal, secundario)
    ensures DebeRedibujar(n, ultima, principal, secundario) ==>
              principal in ultima && secundario in ultima
  {
    n > 2 && RepiteUltima(ultima, principal, secundario)
  }

  /** A draw of the random primary slot that ends the loop. */
  predicate Acepta(n: nat, ultima: seq<int>, principal: int)
    requires |ultima| != 1
  {
    !DebeRedibujar(n, ultima, principal, Secundario(principal))
  }

  /** The previous round, if any, was a valid round over `n` slots. */
  predicate UltimaEn(n: nat, ultima: seq<int>)
  {
    ultima == [] || (|ultima| == 2 && n >= 2 && 0 <= ultima[0] < n && ultima[1] == Secundario(ultima[0]))
  }

  /** Whatever the previous round, some primary slot ends the loop, so a random draw eventually does. */
  lemma ExisteAceptable(n: nat, ultima: seq<int>)
    requires n >= 2 && UltimaEn(n, ultima)
    ensures exists principal :: 0 <= principal < n && Acepta(n, ultima, principal)
  {
    if n == 2 || ultima == [] {
      assert Acepta(n, ultima, 0);
    } else if ultima[0] <= 1 {
      assert Acepta(n, ultima, 2);
    } else {
      assert Acepta(n, ultima, 0);
    }
  }

  /** The successive values of `Math.floor(Math.random() * n)`. */
  predicate SorteosEn(n: nat, sorteos: seq<int>)
  {
    forall j :: 0 <= j < |sorteos| ==> 0 <= sorteos[j] < n
  }

  /** Some draw among `sorteos` ends the loop. */
  predicate HayAceptable(n: nat, ultima: seq<int>, sorteos: seq<int>)
    requires |ultima| != 1
  {
    exists j :: 0 <= j < |sorteos| && Acepta(n, ultima, sorteos[j])
  }

  /** The position, among the draws, of the one the redraw loop stops at: the first accepted. */
  function PrimerAceptado(n: nat, ultima: seq<int>, sorteos: seq<int>): (k: nat)
    requires |ultima| != 1
    requires HayAceptable(n, ultima, sorteos)
    ensures k < |sorteos| && Acepta(n, ultima, sorteos[k])
    ensures forall j :: 0 <= j < k ==> !Acepta(n, ultima, sorteos[j])
    decreases |sorteos|
  {
    if Acepta(n, ultima, sorteos[0]) then 0
    else
      var j :| 0 <= j < |sorteos| && Acepta(n, ultima, sorteos[j]);
      assert sorteos[1..][j - 1] == sorteos[j];
      1 + PrimerAceptado(n, ultima, sorteos[1..])
  }

  /**
   * The presentation order (lines 253-259): `principal` goes left when its
   * value ranks better than `secundario`'s under the direction (strictly),
   * otherwise the two trade sides.
   */
  function Ordenar(esAscendente: bool, archivos: seq<Archivo>, principal: int, secundario: int): (par: (int, int))
    requires 0 <= principal < |archivos| && 0 <= secundario < |archivos|
    ensures (par.0 == principal && par.1 == secundario) || (par.0 == secundario && par.1 == principal)
  {
    var condicion := if esAscendente
      then archivos[principal].metrica < archivos[secundario].metrica
      else archivos[principal].metrica > archivos[secundario].metrica;
    if condicion then (principal, secundario) else (secundario, principal)
  }

  /**
   * `principal` is shown on the left exactly when its value ranks strictly
   * better; the left slot always holds the value that ranks at least as well.
   */
  lemma OrdenarIzquierda(esAscendente: bool, archivos: seq<Archivo>, principal: int, secundario: int)
    requires 0 <= principal < |archivos| && 0 <= secundario < |archivos| && principal != secundario
    ensures var (izq, der) := Ordenar(esAscendente, archivos, principal, secundario);
            && (izq == principal <==> (if esAscendente then archivos[principal].metrica < archivos[secundario].metrica
                                                       else archivos[principal].metrica > archivos[secundario].metrica))
            && EnOrden(esAscendente, archivos[izq].metrica, archivos[der].metrica)
  {
  }

  /**
   * Consequence for the user: picking the left slot never changes anything,
   * and picking the right slot swaps exactly when the two values differ.
   */
  lemma RespuestaSegunLado(esAscendente: bool, archivos: seq<Archivo>, principal: int, secundario: int)
    requires 0 <= principal < |archivos| && 0 <= secundario < |archivos| && principal != secundario
    ensures var (izq, der) := Ordenar(esAscendente, archivos, principal, secundario);
            && Responder(esAscendente, archivos, izq, der) == archivos
            && (Responder(esAscendente, archivos, der, izq) == archivos <==> archivos[izq].metrica == archivos[der].metrica)
  {
    var (izq, der) := Ordenar(esAscendente, archivos, principal, secundario);
    OrdenarIzquierda(esAscendente, archivos, principal, secundario);
    if archivos[izq].metrica != archivos[der].metrica {
      var r := Responder(esAscendente, archivos, der, izq);
      assert r[der].metrica == archivos[izq].metrica;
    }
  }

  // ---------------------------------------------------------------------------
  // The modal

  class ReordenarModal {
    /** The frontmatter key of the metric being ranked. */
    const metrica: string
    const esAscendente: bool
    /** The notes of the session; the slots never move, only their values change. */
    const archivos: array<Archivo>
    /** The slots of the last round shown, `[principal, secundario]`, or empty before the first. */
    var ultima: seq<int>
    var indiceIzq: int
    var indiceDer: int

    ghost predicate UltimaValida()
      reads this
    {
      UltimaEn(archivos.Length, ultima)
    }

    /** Once a round has been shown, the left and right slots are that round's two slots. */
    ghost predicate Valid()
      reads this
    {
      && UltimaValida()
      && (|ultima| == 2 ==>
            (indiceIzq == ultima[0] && indiceDer == ultima[1]) || (indiceIzq == ultima[1] && indiceDer == ultima[0]))
    }

    /**
     * The modal over the notes the metric query returned (that query is not
     * modelled); no round has been shown yet.
     */
    constructor (metrica: string, esAscendente: bool, candidatos: seq<Archivo>)
      ensures this.metrica == metrica && this.esAscendente == esAscendente
      ensures fresh(archivos) && archivos[..] == candidatos && ultima == []
      ensures Valid()
    {
      this.metrica := metrica;
      this.esAscendente := esAscendente;
      archivos := new Archivo[|candidatos|](i requires 0 <= i < |candidatos| => candidatos[i]);
      ultima := [];
      indiceIzq, indiceDer := 0, 0;
    }

    /**
     * `conseguirArchivos`: draw primary slots from `sorteos` until one is
     * accepted, record the pair in `ultima`, and return it in presentation
     * order.
     */
    method ConseguirArchivos(sorteos: seq<int>) returns (izq: int, der: int)
      requires UltimaValida() && archivos.Length >= 2
      requires SorteosEn(archivos.Length, sorteos) && HayAceptable(archivos.Length, ultima, sorteos)
      modifies this`ultima
      ensures UltimaValida() && |ultima| == 2
      ensures ultima[0] == sorteos[PrimerAceptado(archivos.Length, old(ultima), sorteos)]
      ensures ultima[1] == Secundario(ultima[0])
      ensures old(ultima) != [] && archivos.Length > 2 ==> !RepiteUltima(old(ultima), ultima[0], ultima[1])
      ensures (izq, der) == Ordenar(esAscendente, archivos[..], ultima[0], ultima[1])
    {
      var n := archivos.Length;
      var k := 0;
      var indicePrincipal := sorteos[0];
      var indiceSecundario := Secundario(indicePrincipal);
      while DebeRedibujar(n, ultima, indicePrincipal, indiceSecundario)
        invariant 0 <= k < |sorteos|
        invariant indicePrincipal == sorteos[k] && indiceSecundario == Secundario(indicePrincipal)
        invariant forall j :: 0 <= j < k ==> !Acepta(n, ultima, sorteos[j])
        invariant exists j :: k <= j < |sorteos| && Acepta(n, ultima, sorteos[j])
        decreases |sorteos| - k
      {
        k := k + 1;
        indicePrincipal := sorteos[k];
        indiceSecundario := Secundario(indicePrincipal);
      }
      assert k == PrimerAceptado(n, ultima, sorteos);
      ultima := [indicePrincipal, indiceSecundario];
      var ordenados := Ordenar(esAscendente, archivos[..], indicePrincipal, indiceSecundario);
      izq, der := ordenados.0, ordenados.1;
    }

    /** The engine part of `onOpen` (line 142): start a round and remember its left and right slots. */
    method OnOpen(sorteos: seq<int>)
      requires Valid() && archivos.Length >= 2
      requires SorteosEn(archivos.Length, sorteos) && HayAceptable(archivos.Length, ultima, sorteos)
      modifies this`ultima, this`indiceIzq, this`indiceDer
      ensures Valid() && |ultima| == 2
      ensures ultima[0] == sorteos[PrimerAceptado(archivos.Length, old(ultima), sorteos)]
      ensures ultima[1] == Secundario(ultima[0])
      ensures old(ultima) != [] && archivos.Length > 2 ==> !RepiteUltima(old(ultima), ultima[0], ultima[1])
      ensures (indiceIzq, indiceDer) == Ordenar(esAscendente, archivos[..], ultima[0], ultima[1])
    {
      indiceIzq, indiceDer := ConseguirArchivos(sorteos);
    }

    /** The write `onClose` issues for slot `i`: the note's path, the metric key, the slot's current value. */
    function EscrituraDe(i: int): Escritura
      reads this, archivos
      requires 0 <= i < archivos.Length
    {
      Escritura(archivos[i].path, metrica, archivos[i].metrica)
    }

    /**
     * `onClose` (lines 190-201): the frontmatter writes of a flush, one per
     * slot of the last round, with the values the slots hold now; before
     * the first round there is nothing to write.
     */
    function OnClose(): (escrituras: seq<Escritura>)
      reads this, archivos
      requires UltimaValida()
      ensures |escrituras| == |ultima|
      ensures forall k :: 0 <= k < |ultima| ==> escrituras[k] == EscrituraDe(ultima[k])
      ensures Valid() && |ultima| == 2 ==>
                multiset(escrituras) == multiset{EscrituraDe(indiceIzq), EscrituraDe(indiceDer)}
    {
      if ultima == [] then [] else [EscrituraDe(ultima[0]), EscrituraDe(ultima[1])]
    }

    /**
     * Lines 208-215 of `establecerComparacion`: when the stored values
     * disagree with the verdict, the two slots trade their values in place.
     */
    method AplicarRespuesta(mejor: int, peor: int)
      requires 0 <= mejor < archivos.Length && 0 <= peor < archivos.Length && mejor != peor
      modifies archivos
      ensures archivos[..] == Responder(esAscendente, old(archivos[..]), mejor, peor)
    {
      var metricaMejor := archivos[mejor].metrica;
      var metricaPeor := archivos[peor].metrica;
      if DebeCambiar(esAscendente, metricaMejor, metricaPeor) {
        archivos[mejor] := archivos[mejor].(metrica := metricaPeor);
        archivos[peor] := archivos[peor].(metrica := metricaMejor);
      }
    }

    /**
     * `establecerComparacion`: apply the answer to the two shown slots, flush
     * them, and open the next round.
     */
    method EstablecerComparacion(dir: Lado, sorteos: seq<int>) returns (escrituras: seq<Escritura>)
      requires Valid() && |ultima| == 2
      requires SorteosEn(archivos.Length, sorteos) && HayAceptable(archivos.Length, ultima, sorteos)
      modifies this`ultima, this`indiceIzq, this`indiceDer, archivos
      ensures Valid() && |ultima| == 2
      ensures var mejor := if dir == Der then old(indiceDer) else old(indiceIzq);
              var peor := if dir == Der then old(indiceIzq) else old(indiceDer);
              archivos[..] == Responder(esAscendente, old(archivos[..]), mejor, peor)
      ensures escrituras == [EscrituraDe(old(ultima)[0]), EscrituraDe(old(ultima)[1])]
      ensures multiset(escrituras) == multiset{EscrituraDe(old(indiceIzq)), EscrituraDe(old(indiceDer))}
      ensures ultima[0] == sorteos[PrimerAceptado(archivos.Length, old(ultima), sorteos)]
      ensures ultima[1] == Secundario(ultima[0])
      ensures archivos.Length > 2 ==> !RepiteUltima(old(ultima), ultima[0], ultima[1])
      ensures (indiceIzq, indiceDer) == Ordenar(esAscendente, archivos[..], ultima[0], ultima[1])
    {
      var indiceMejor := if dir == Der then indiceDer else indiceIzq;
      var indicePeor := if dir == Der then indiceIzq else indiceDer;
      AplicarRespuesta(indiceMejor, indicePeor);
      escrituras := OnClose();
      OnOpen(sorteos);
    }
  }

  // ---------------------------------------------------------------------------
  // Two worked rounds

  /** Ascending, [A=5, B=5, C=8], primary 2: B goes left, C right; picking B changes nothing. */
  lemma EjemploTresNotas()
    ensures var archivos := [Archivo("a", "A", 5), Archivo("b", "B", 5), Archivo("c", "C", 8)];
            && Secundario(2) == 1
            && Ordenar(true, archivos, 2, 1) == (1, 2)
            && Responder(true, archivos, 1, 2) == archivos
  {
  }

  /** Ascending, [A=5, B=9], primary 1: A goes left; picking B as better swaps the two values. */
  lemma EjemploDosNotas()
    ensures var archivos := [Archivo("a", "A", 5), Archivo("b", "B", 9)];
            && Acepta(2, [0, 1], 1) && Acepta(2, [1, 0], 0)
            && Ordenar(true, archivos, 1, Secundario(1)) == (0, 1)
            && Responder(true, archivos, 1, 0) == [Archivo("a", "A", 9), Archivo("b", "B", 5)]
  {
  }
}
