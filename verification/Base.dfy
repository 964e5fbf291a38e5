/** Small vocabulary shared by all the models. */
module Base {

  datatype Option<+T> = None | Some(value: T)

  datatype Result<+T, +E> = Ok(value: T) | Err(error: E)

  function Min(a: int, b: int): int {
    if a <= b then a else b
  }

  function Max(a: int, b: int): int {
    if a >= b then a else b
  }

  lemma Multiples(span: nat, a: int, b: int)
    ensures a <= b ==> a * span <= b * span
    ensures a < b ==> a * span + span <= b * span
  {
    assert b * span - a * span == (b - a) * span;
    if a <= b {
      assert (b - a) * span >= 0;
    }
    if a < b {
      assert (b - a) * span == (b - a - 1) * span + span;
      assert (b - a - 1) * span >= 0;
    }
  }

  lemma Quotient(a: nat, span: nat, q: nat)
    requires span > 0 && q * span <= a < q * span + span
    ensures a / span == q
  {
    Multiples(span, a / span, q);
    Multiples(span, q, a / span);
  }

  lemma Remainder(a: nat, n: nat, q: nat)
    requires n > 0 && q * n <= a < q * n + n
    ensures a % n == a - q * n
  {
    Quotient(a, n, q);
  }

  ghost predicate Distinct(s: seq<nat>) {
    forall i, j :: 0 <= i < j < |s| ==> s[i] != s[j]
  }

  function Elements(s: seq<nat>): set<nat> {
    set x | x in s
  }

  // Kinds of files, for all filesystems.
  datatype FileType = Regular | Directory | CharDevice | BlockDevice | Symlink

  // The errors of filesystems that come up in the models.
  datatype FsError =
    | NotFound | NotADirectory | IsADirectory | AlreadyExists | NotSupported | NoSpace | OutOfMemory
    | InvalidArgument | NotEmpty | CrossDevice | NameTooLong | FileTooLarge | IoError
}
