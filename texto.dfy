/**
 * The few JavaScript string primitives the plugin relies on, following the
 * ECMAScript built-ins: `String.prototype.trim`, `String.prototype.slice`
 * (one argument, negative start counts from the end) and
 * `String.prototype.indexOf` (first occurrence, or -1). A string here is a
 * sequence of characters, whereas ECMAScript indexes UTF-16 code units; the
 * two agree on text without characters outside the Basic Multilingual Plane.
 */
module Texto {

  /** WhiteSpace or LineTerminator in the sense of ECMAScript, the set `trim` removes. */
  predicate EsEspacio(c: char)
  {
    || c == '\t' || c == '\n' || c == '\U{000B}' || c == '\U{000C}' || c == '\r'
    || c == ' ' || c == '\U{00A0}' || c == '\U{1680}'
    || ('\U{2000}' <= c <= '\U{200A}')
    || c == '\U{2028}' || c == '\U{2029}' || c == '\U{202F}' || c == '\U{205F}'
    || c == '\U{3000}' || c == '\U{FEFF}'
  }

  /** Index of the first character that is not white space (|s| if there is none). */
  function Inicio(s: string): (i: nat)
    ensures i <= |s|
    ensures forall k :: 0 <= k < i ==> EsEspacio(s[k])
    ensures i < |s| ==> !EsEspacio(s[i])
  {
    if |s| == 0 || !EsEspacio(s[0]) then 0 else 1 + Inicio(s[1..])
  }

  /** One past the last character that is not white space (0 if there is none). */
  function Fin(s: string): (j: nat)
    ensures j <= |s|
    ensures forall k :: j <= k < |s| ==> EsEspacio(s[k])
    ensures j > 0 ==> !EsEspacio(s[j - 1])
  {
    if |s| == 0 || !EsEspacio(s[|s| - 1]) then |s| else Fin(s[..|s| - 1])
  }

  /** `s.trim()`: the slice of `s` between its leading and its trailing white space. */
  function Trim(s: string): (r: string)
    ensures |r| <= |s|
    ensures r == [] ==> forall k :: 0 <= k < |s| ==> EsEspacio(s[k])
    ensures r != [] ==> Inicio(s) + |r| == Fin(s) && r == s[Inicio(s)..Fin(s)]
    ensures r != [] ==> !EsEspacio(r[0]) && !EsEspacio(r[|r| - 1])
  {
    if Fin(s) <= Inicio(s) then
      assert forall k :: 0 <= k < |s| ==> EsEspacio(s[k]) by {
        forall k | 0 <= k < |s| ensures EsEspacio(s[k]) {
          assert k < Inicio(s) || Fin(s) <= k;
        }
      }
      []
    else
      s[Inicio(s)..Fin(s)]
  }

  /** Trimming twice trims nothing more. */
  lemma {:induction false} TrimIdempotente(s: string)
    ensures Trim(Trim(s)) == Trim(s)
  {
    var t := Trim(s);
    if t != [] {
      assert Inicio(t) == 0;
      assert Fin(t) == |t|;
    }
  }

  /** The start index `s.slice(inicio)` uses: negative counts from the end, clamped to [0, |s|]. */
  function InicioRebanada(n: nat, inicio: int): (k: nat)
    ensures k <= n
    ensures 0 <= inicio <= n ==> k == inicio
    ensures inicio < 0 && n + inicio >= 0 ==> k == n + inicio
  {
    if inicio < 0 then (if n + inicio < 0 then 0 else n + inicio)
    else if inicio > n then n
    else inicio
  }

  /**
   * `s.slice(inicio)`: always a suffix of `s`; a start past the end gives the
   * empty string, a negative start beyond the length keeps the whole text.
   */
  function Rebanar(s: string, inicio: int): (r: string)
    ensures |r| <= |s| && r == s[|s| - |r|..]
    ensures 0 <= inicio <= |s| ==> |r| == |s| - inicio
    ensures inicio < 0 && |s| + inicio >= 0 ==> |r| == -inicio
    ensures inicio >= |s| ==> r == []
    ensures |s| + inicio <= 0 ==> r == s
  {
    s[InicioRebanada(|s|, inicio)..]
  }

  /** `pat` occurs in `s` at position `k`. */
  predicate ApareceEn(s: string, pat: string, k: int)
  {
    0 <= k && k + |pat| <= |s| && s[k..k + |pat|] == pat
  }

  /** `s.indexOf(pat)` searching from position `desde`. */
  function IndiceDesde(s: string, pat: string, desde: nat): (i: int)
    requires desde <= |s|
    ensures i == -1 || (desde <= i <= |s| && ApareceEn(s, pat, i))
    ensures i == -1 ==> forall k :: desde <= k <= |s| ==> !ApareceEn(s, pat, k)
    ensures i != -1 ==> forall k :: desde <= k < i ==> !ApareceEn(s, pat, k)
    decreases |s| - desde
  {
    if ApareceEn(s, pat, desde) then desde
    else if desde == |s| then -1
    else IndiceDesde(s, pat, desde + 1)
  }

  /** `s.indexOf(pat)`: the first position where `pat` occurs, or -1. */
  function IndiceDe(s: string, pat: string): (i: int)
    ensures -1 <= i <= |s|
    ensures i != -1 ==> ApareceEn(s, pat, i) && forall k :: 0 <= k < i ==> !ApareceEn(s, pat, k)
    ensures i == -1 <==> forall k :: 0 <= k <= |s| ==> !ApareceEn(s, pat, k)
  {
    IndiceDesde(s, pat, 0)
  }
}
