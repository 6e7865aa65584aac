/** The `diag mem` walk: save and overwrite every word, then check and restore every word.

    The memory behind the window may alias: word `i` of the window is physical cell `phys[i]`.
    The walk is stated for any number of words up to 65536; the command uses 256.
 */
module DramWalk {

  const PATTERN: nat := 0xA5A5_0000

  /** `0xA5A50000 | i`, which is a sum because i fits the 16 zero bits. */
  function Pattern(i: nat): nat { PATTERN + i }

  /** The upper half of a pattern is the same for every word, the lower half is its number. */
  lemma PatternHalves(i: nat)
    requires i < 0x1_0000
    ensures Pattern(i) / 0x1_0000 == 0xA5A5 && Pattern(i) % 0x1_0000 == i
  {
  }

  /** The last of the first `n` words that is cell `c`, or -1. */
  function Last(phys: seq<nat>, c: nat, n: nat): (k: int)
    requires n <= |phys|
    ensures -1 <= k < n
    ensures k >= 0 ==> phys[k] == c
  {
    if n == 0 then -1
    else if phys[n - 1] == c then n - 1
    else Last(phys, c, n - 1)
  }

  lemma {:induction false} LastIsLast(phys: seq<nat>, c: nat, n: nat)
    requires n <= |phys|
    ensures forall j :: Last(phys, c, n) < j < n ==> phys[j] != c
  {
    if n == 0 {
    } else if phys[n - 1] != c {
      LastIsLast(phys, c, n - 1);
    }
  }

  ghost predicate InRange(phys: seq<nat>, size: nat) {
    forall i :: 0 <= i < |phys| ==> phys[i] < size
  }

  ghost predicate Injective(phys: seq<nat>) {
    forall i, j :: 0 <= i < j < |phys| ==> phys[i] != phys[j]
  }

  /** Cell `c` after the first `n` words were overwritten. */
  ghost function Filled(orig: seq<nat>, phys: seq<nat>, n: nat, c: nat): nat
    requires n <= |phys| && c < |orig|
  {
    if Last(phys, c, n) < 0 then orig[c] else Pattern(Last(phys, c, n))
  }

  /** What was saved for word `i`: the cell as the earlier words had left it. */
  ghost function Saved(orig: seq<nat>, phys: seq<nat>, i: nat): nat
    requires i < |phys| && phys[i] < |orig|
  {
    Filled(orig, phys, i, phys[i])
  }

  /** Cell `c` after the first `n` words were checked and restored. */
  ghost function Restored(orig: seq<nat>, phys: seq<nat>, n: nat, c: nat): nat
    requires n <= |phys| && c < |orig| && InRange(phys, |orig|)
  {
    if Last(phys, c, n) < 0 then Filled(orig, phys, |phys|, c)
    else Saved(orig, phys, Last(phys, c, n))
  }

  /** Word `i` reads back wrong in the second pass. */
  ghost predicate Bad(orig: seq<nat>, phys: seq<nat>, i: nat)
    requires i < |phys| && InRange(phys, |orig|)
  {
    Restored(orig, phys, i, phys[i]) != Pattern(i)
  }

  ghost function CountBad(orig: seq<nat>, phys: seq<nat>, n: nat): nat
    requires n <= |phys| && InRange(phys, |orig|)
  {
    if n == 0 then 0 else CountBad(orig, phys, n - 1) + (if Bad(orig, phys, n - 1) then 1 else 0)
  }

  /** First pass. */
  method SaveAndFill(mem: array<nat>, phys: seq<nat>, saved: array<nat>)
    requires mem != saved && saved.Length == |phys| <= 65536 && InRange(phys, mem.Length)
    modifies mem, saved
    ensures forall c :: 0 <= c < mem.Length ==> mem[c] == Filled(old(mem[..]), phys, |phys|, c)
    ensures forall i :: 0 <= i < |phys| ==> saved[i] == Saved(old(mem[..]), phys, i)
  {
    ghost var orig := mem[..];
    var i := 0;
    while i < |phys|
      invariant 0 <= i <= |phys|
      invariant forall c :: 0 <= c < mem.Length ==> mem[c] == Filled(orig, phys, i, c)
      invariant forall k :: 0 <= k < i ==> saved[k] == Saved(orig, phys, k)
    {
      forall c | 0 <= c < mem.Length
        ensures Filled(orig, phys, i + 1, c) == if c == phys[i] then Pattern(i) else mem[c]
      {
        FilledStep(orig, phys, i, c);
      }
      saved[i] := mem[phys[i]];
      mem[phys[i]] := Pattern(i);
      i := i + 1;
    }
  }

  lemma FilledStep(orig: seq<nat>, phys: seq<nat>, i: nat, c: nat)
    requires i < |phys| && c < |orig|
    ensures Filled(orig, phys, i + 1, c) == if c == phys[i] then Pattern(i) else Filled(orig, phys, i, c)
  {
  }

  lemma RestoredStep(orig: seq<nat>, phys: seq<nat>, i: nat, c: nat)
    requires i < |phys| && c < |orig| && InRange(phys, |orig|)
    ensures Restored(orig, phys, i + 1, c)
         == if c == phys[i] then Saved(orig, phys, i) else Restored(orig, phys, i, c)
  {
  }

  /** Second pass, with the words saved by the first. */
  method CheckAndRestore(mem: array<nat>, phys: seq<nat>, saved: seq<nat>, ghost orig: seq<nat>) returns (errors: nat)
    requires |saved| == |phys| && |orig| == mem.Length && InRange(phys, mem.Length)
    requires forall c :: 0 <= c < mem.Length ==> mem[c] == Filled(orig, phys, |phys|, c)
    requires forall i :: 0 <= i < |phys| ==> saved[i] == Saved(orig, phys, i)
    modifies mem
    ensures errors == CountBad(orig, phys, |phys|)
    ensures forall c :: 0 <= c < mem.Length ==> mem[c] == Restored(orig, phys, |phys|, c)
  {
    errors := 0;
    var i := 0;
    while i < |phys|
      invariant 0 <= i <= |phys|
      invariant errors == CountBad(orig, phys, i)
      invariant forall c :: 0 <= c < mem.Length ==> mem[c] == Restored(orig, phys, i, c)
    {
      if mem[phys[i]] != Pattern(i) {
        errors := errors + 1;
      }
      forall c | 0 <= c < mem.Length
        ensures Restored(orig, phys, i + 1, c) == if c == phys[i] then saved[i] else mem[c]
      {
        RestoredStep(orig, phys, i, c);
      }
      mem[phys[i]] := saved[i];
      i := i + 1;
    }
  }

  /** `do_diag_mem`: no error is reported exactly when no two words share a cell, and then memory
      is as before. */
  method Walk(mem: array<nat>, phys: seq<nat>) returns (errors: nat)
    requires |phys| <= 65536 && InRange(phys, mem.Length)
    modifies mem
    ensures errors == CountBad(old(mem[..]), phys, |phys|)
    ensures errors == 0 <==> Injective(phys)
    ensures errors == 0 ==> mem[..] == old(mem[..])
    ensures forall c :: 0 <= c < mem.Length ==> mem[c] == FinalCell(old(mem[..]), phys, c)
  {
    ghost var orig := mem[..];
    var saved := new nat[|phys|](_ => 0);
    SaveAndFill(mem, phys, saved);
    errors := CheckAndRestore(mem, phys, saved[..], orig);
    ZeroErrorsIff(orig, phys);
    forall c | 0 <= c < mem.Length ensures mem[c] == FinalCell(orig, phys, c) {
      FinalCellIs(orig, phys, c);
    }
    if errors == 0 {
      forall c | 0 <= c < mem.Length ensures mem[c] == orig[c] {
        InjectiveFinal(orig, phys, c);
      }
      assert mem[..] == orig;
    }
  }

  /** What is left in cell `c`: its old content if at most one word maps there, otherwise the
      pattern of the last word but one. */
  ghost function FinalCell(orig: seq<nat>, phys: seq<nat>, c: nat): nat
    requires c < |orig| && InRange(phys, |orig|)
  {
    var k := Last(phys, c, |phys|);
    if k < 0 || Last(phys, c, k) < 0 then orig[c] else Pattern(Last(phys, c, k))
  }

  lemma FinalCellIs(orig: seq<nat>, phys: seq<nat>, c: nat)
    requires c < |orig| && InRange(phys, |orig|)
    ensures Restored(orig, phys, |phys|, c) == FinalCell(orig, phys, c)
  {
  }

  lemma InjectiveFinal(orig: seq<nat>, phys: seq<nat>, c: nat)
    requires c < |orig| && InRange(phys, |orig|) && Injective(phys)
    ensures FinalCell(orig, phys, c) == orig[c]
  {
  }

  lemma {:induction false} CountBadZero(orig: seq<nat>, phys: seq<nat>, n: nat)
    requires n <= |phys| && InRange(phys, |orig|)
    ensures CountBad(orig, phys, n) == 0 <==> forall i :: 0 <= i < n ==> !Bad(orig, phys, i)
  {
    if n == 0 {
    } else {
      CountBadZero(orig, phys, n - 1);
    }
  }

  /** The first of two words sharing a cell always reads back the pattern of the last one. */
  lemma FirstAliasIsBad(orig: seq<nat>, phys: seq<nat>, i: nat, j: nat)
    requires i < j < |phys| && phys[i] == phys[j] && InRange(phys, |orig|)
    requires forall k :: 0 <= k < i ==> phys[k] != phys[i]
    ensures Bad(orig, phys, i)
  {
    LastIsLast(phys, phys[i], |phys|);
    assert Last(phys, phys[i], i) < 0;
    assert Last(phys, phys[i], |phys|) >= j;
  }

  lemma {:induction false} FirstOf(phys: seq<nat>, i: nat) returns (f: nat)
    requires i < |phys|
    ensures f <= i && phys[f] == phys[i] && forall k :: 0 <= k < f ==> phys[k] != phys[i]
  {
    f := 0;
    while phys[f] != phys[i]
      invariant f <= i && forall k :: 0 <= k < f ==> phys[k] != phys[i]
      decreases i - f
    {
      f := f + 1;
    }
  }

  lemma ZeroErrorsIff(orig: seq<nat>, phys: seq<nat>)
    requires InRange(phys, |orig|)
    ensures CountBad(orig, phys, |phys|) == 0 <==> Injective(phys)
  {
    CountBadZero(orig, phys, |phys|);
    if Injective(phys) {
      forall i | 0 <= i < |phys| ensures !Bad(orig, phys, i) {
        LastIsLast(phys, phys[i], |phys|);
        assert Last(phys, phys[i], i) < 0;
        assert Last(phys, phys[i], |phys|) == i;
      }
    } else {
      var i, j :| 0 <= i < j < |phys| && phys[i] == phys[j];
      var f := FirstOf(phys, i);
      FirstAliasIsBad(orig, phys, f, j);
    }
  }

  /** With aliases the walk is not non-destructive: a shared cell comes back as it was exactly if
      it held, before the walk, the pattern of the last word but one that maps to it. */
  lemma AliasDestroys(orig: seq<nat>, phys: seq<nat>, i: nat, j: nat)
    requires i < j < |phys| <= 65536 && phys[i] == phys[j] && InRange(phys, |orig|)
    ensures var c := phys[i];
      var last := Last(phys, c, |phys|);
      && j <= last && i <= Last(phys, c, last)
      && (FinalCell(orig, phys, c) == orig[c] <==> orig[c] == Pattern(Last(phys, c, last)))
  {
    var c := phys[i];
    var last := Last(phys, c, |phys|);
    LastIsLast(phys, c, |phys|);
    assert last >= j;
    var before := Last(phys, c, last);
    LastIsLast(phys, c, last);
    assert before >= i;
    assert phys[before] == c && FinalCell(orig, phys, c) == Pattern(before);
  }
}
