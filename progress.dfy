/**
 * passthru: a reader or writer wrapped so that every transfer is counted.
 * The inner Read or Write is abstract: its result (n, err) is a parameter,
 * and only the byte counter is modelled, as the uint64 it is.
 */
module Progress {
  import opened Wrappers


  const Uint64Modulus: nat := 0x1_0000_0000_0000_0000

  /** The error an inner Read or Write reports, kept opaque. */
  datatype IoError = IoError(code: int)

  /** The counter after a transfer of n bytes: it moves only on a positive count outside quiet mode. */
  function Counted(total: nat, n: int, quiet: bool): (r: nat)
    requires total < Uint64Modulus
    ensures r < Uint64Modulus
    ensures n <= 0 || quiet ==> r == total
    ensures n > 0 && !quiet ==> (r + Uint64Modulus - total) % Uint64Modulus == n % Uint64Modulus
  {
    if n <= 0 || quiet then total else (total + n) % Uint64Modulus
  }

  /** Outside quiet mode, counting two transfers one after the other counts their sum. */
  lemma {:induction false} CountedAdds(total: nat, n: nat, m: nat)
    requires total < Uint64Modulus
    ensures Counted(Counted(total, n, false), m, false) == (total + n + m) % Uint64Modulus
  {
    var M := Uint64Modulus;
    if n > 0 {
      var t := (total + n) % M;
      var q := (total + n) / M;
      assert total + n == q * M + t;
      if m > 0 {
        assert total + n + m == (t + m) + q * M;
      }
    } else if m > 0 {
    } else {
      assert total + n + m == total;
    }
  }

  class Passthru {
    /** Bytes transferred so far. */
    var total: nat
    /** The expected length, used only for the percentage display. */
    var length: nat

    ghost predicate Valid()
      reads this
    {
      total < Uint64Modulus && length < Uint64Modulus
    }

    constructor(length: nat)
      requires length < Uint64Modulus
      ensures Valid() && total == 0 && this.length == length
    {
      this.total := 0;
      this.length := length;
    }

    /** Read: forwards the inner reader's result unchanged and counts the bytes it read. */
    method Read(n: int, err: Option<IoError>, quiet: bool) returns (n': int, err': Option<IoError>)
      requires Valid()
      modifies this
      ensures Valid()
      ensures n' == n && err' == err
      ensures total == Counted(old(total), n, quiet) && length == old(length)
    {
      n', err' := n, err;
      if n <= 0 || quiet {
        return;
      }
      total := (total + n) % Uint64Modulus;
    }

    /** Write: forwards the inner writer's result unchanged and counts the bytes it wrote. */
    method Write(n: int, err: Option<IoError>, quiet: bool) returns (n': int, err': Option<IoError>)
      requires Valid()
      modifies this
      ensures Valid()
      ensures n' == n && err' == err
      ensures total == Counted(old(total), n, quiet) && length == old(length)
    {
      n', err' := n, err;
      if n <= 0 || quiet {
        return;
      }
      total := (total + n) % Uint64Modulus;
    }
  }
}
