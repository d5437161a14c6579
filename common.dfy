/** Shared vocabulary of the mod-order reconciliation model: optional values,
    results, the abstract UUID codec, the error log and a few sequence notions. */
module Common {

  datatype Option<+T> = None | Some(value: T)

  /** `Failure` stands for a Python exception that nothing catches: the
      program stops at that point. */
  datatype Result<+T, +E> = Success(value: T) | Failure(error: E)

  /** One more than the largest 128-bit UUID integer. */
  const UUID_LIMIT: nat := 0x1_0000_0000_0000_0000_0000_0000_0000_0000

  /** Python's `uuid.UUID` as the program uses it: `parse` is `UUID(text).int`
      (None when the constructor raises ValueError), `format` is
      `str(UUID(int=n))`, the canonical text. The textual grammar is not part
      of this model. */
  datatype UuidCodec = UuidCodec(parse: string -> Option<nat>, format: nat -> string)

  /** What the uuid module guarantees: parsed values fit in 128 bits, and
      formatting a 128-bit value gives text that parses back to it. */
  ghost predicate Lawful(c: UuidCodec) {
    && (forall s :: c.parse(s).Some? ==> c.parse(s).value < UUID_LIMIT)
    && (forall n: nat :: n < UUID_LIMIT ==> c.parse(c.format(n)) == Some(n))
  }

  /** Canonical text of distinct 128-bit ids is distinct. */
  lemma FormatInjective(c: UuidCodec, m: nat, n: nat)
    requires Lawful(c)
    requires m < UUID_LIMIT && n < UUID_LIMIT && m != n
    ensures c.format(m) != c.format(n)
  {
    assert c.parse(c.format(m)) == Some(m);
    assert c.parse(c.format(n)) == Some(n);
  }

  /** The error-log entries (console messages of the program that do not stop it). */
  datatype Warning =
    | MissingField(field: string)          // a registry record lacks 'id' or 'gameRegistryId'
    | DatabaseUnreadable                   // registry load stopped by an exception
    | GuiOrderUnreadable                   // GUI order document unreadable or malformed
    | EnabledListUnreadable                // enabled-list document unreadable or malformed
    | UnresolvedReference(name: string)    // enabled-list entry not in the identifier index
    | InvalidMod(id: nat)                  // enable/disable of an id not in the table
    | ImportUnreadable                     // imported list document unreadable
    | ImportRejected(missing: set<nat>)    // imported ids absent from the current order
    | NonUnique(id: nat)                   // id consumed twice, or not consumable
    | SortSkipped(id: nat)                 // id in a sort order but not in the table
    | LeakedElement(id: nat)               // table entry missing from the order being written

  /** Uncaught exceptions: the program stops. */
  datatype Crash =
    | MissingKey(field: string)            // KeyError on a record or document key
    | MalformedId(text: string)            // ValueError from UUID(text)
    | UnknownMod(id: nat)                  // KeyError on the mod table
    | UnknownName(name: string)            // KeyError on the name lookup
    | UndefinedName                        // NameError

  /** A non-empty sequence is its front followed by its last element. */
  lemma SplitLast<T>(s: seq<T>)
    requires s != []
    ensures s == s[..|s| - 1] + [s[|s| - 1]]
  {
  }

  predicate NoDups<T(==)>(s: seq<T>) {
    forall i, j :: 0 <= i < j < |s| ==> s[i] != s[j]
  }

  lemma NoDupsSnoc<T>(s: seq<T>, x: T)
    requires NoDups(s) && x !in s
    ensures NoDups(s + [x])
  {
  }

  function Elements<T>(s: seq<T>): set<T> {
    set x | x in s
  }

  /** Index of the first occurrence of `x` in `s`. */
  function IndexOf<T(==)>(s: seq<T>, x: T): (i: nat)
    requires x in s
    ensures i < |s| && s[i] == x && x !in s[..i]
  {
    if s[0] == x then 0 else 1 + IndexOf(s[1..], x)
  }

  lemma IndexOfAppend<T>(s: seq<T>, y: T, x: T)
    requires x in s
    ensures x in s + [y] && IndexOf(s + [y], x) == IndexOf(s, x)
  {
    var i := IndexOf(s, x);
    var t := s + [y];
    assert t[i] == x && t[..i] == s[..i];
    IndexOfUnique(t, x, i);
  }

  lemma IndexOfUnique<T>(s: seq<T>, x: T, i: nat)
    requires i < |s| && s[i] == x && x !in s[..i]
    ensures IndexOf(s, x) == i
  {
    var j := IndexOf(s, x);
    assert s[..j] <= s;
  }

  /** `s` lists its elements in the order of their first occurrence in `order`. */
  ghost predicate FollowsOrder<T>(s: seq<T>, order: seq<T>) {
    && (forall x :: x in s ==> x in order)
    && (forall i, j :: 0 <= i < j < |s| ==> IndexOf(order, s[i]) < IndexOf(order, s[j]))
  }

  lemma FollowsOrderAppend<T>(s: seq<T>, order: seq<T>, x: T)
    requires FollowsOrder(s, order)
    requires x !in order
    ensures FollowsOrder(s + [x], order + [x])
  {
    var o := order + [x];
    forall y | y in s ensures y in o && IndexOf(o, y) == IndexOf(order, y) {
      IndexOfAppend(order, x, y);
    }
    IndexOfUnique(o, x, |order|);
    assert o[..|order|] == order;
    forall i | 0 <= i < |s| ensures IndexOf(order, s[i]) < |order| {}
  }

  lemma FollowsOrderExtend<T>(s: seq<T>, order: seq<T>, x: T)
    requires FollowsOrder(s, order)
    ensures FollowsOrder(s, order + [x])
  {
    forall y | y in s ensures IndexOf(order + [x], y) == IndexOf(order, y) {
      IndexOfAppend(order, x, y);
    }
  }
}
