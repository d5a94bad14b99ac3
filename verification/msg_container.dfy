/**
 * The compound-file container of a `.msg` file, as the parsers see it: a
 * tree of directories and document streams. Reading the container format
 * itself is left to the library that does it; only the tree it yields is
 * modelled, with its children in the order the library lists them.
 */
module MsgContainer {
  import opened JavaLang

  /** A directory with its entries, or a document stream with its bytes and the size its directory entry declares. */
  datatype Entry =
    | Dir(name: string, children: seq<Entry>)
    | Leaf(name: string, bytes: seq<uint8>, declaredSize: int)

  /** The directory holding one attachment. */
  const ATTACH_PREFIX: string := "__attach_version1.0"
  /** The directory holding one recipient. */
  const RECIP_PREFIX: string := "__recip_version1.0"
  /** The named-property mapping directory. */
  const NAMEID_PREFIX: string := "__nameid_version1.0"

  /** The number of entries in a subtree, the entry itself included. */
  function EntrySize(e: Entry): (n: nat)
    ensures n >= 1
    decreases e
  {
    match e
    case Dir(_, children) => 1 + EntriesSize(children)
    case Leaf(_, _, _) => 1
  }

  function EntriesSize(es: seq<Entry>): (n: nat)
    ensures n >= |es|
    decreases es
  {
    if |es| == 0 then 0 else EntrySize(es[0]) + EntriesSize(es[1..])
  }

  /** The document streams among a directory's entries, in order. */
  function Leaves(es: seq<Entry>): (r: seq<Entry>)
    ensures forall k :: 0 <= k < |r| ==> r[k].Leaf?
    ensures forall e :: e in r <==> e in es && e.Leaf?
    ensures |r| <= |es|
    ensures (forall k :: 0 <= k < |es| ==> es[k].Leaf?) ==> r == es
    decreases |es|
  {
    if |es| == 0 then []
    else (if es[0].Leaf? then [es[0]] else []) + Leaves(es[1..])
  }

  /**
   * Taking the document streams commutes with joining entry lists, so the
   * streams keep the order the entries have.
   */
  lemma {:induction false} LeavesKeepOrder(a: seq<Entry>, b: seq<Entry>)
    ensures Leaves(a + b) == Leaves(a) + Leaves(b)
    decreases |a|
  {
    if |a| == 0 {
      assert a + b == b;
    } else {
      assert (a + b)[1..] == a[1..] + b;
      LeavesKeepOrder(a[1..], b);
    }
  }

  /** The three special directory prefixes exclude one another: they differ in their third character. */
  lemma PrefixesExclusive(name: string)
    ensures StartsWith(name, NAMEID_PREFIX) ==> !StartsWith(name, ATTACH_PREFIX) && !StartsWith(name, RECIP_PREFIX)
    ensures StartsWith(name, RECIP_PREFIX) ==> !StartsWith(name, ATTACH_PREFIX)
  {
    if StartsWith(name, NAMEID_PREFIX) {
      assert name[2] == NAMEID_PREFIX[2] == 'n';
    }
    if StartsWith(name, RECIP_PREFIX) {
      assert name[2] == RECIP_PREFIX[2] == 'r';
    }
    if StartsWith(name, ATTACH_PREFIX) {
      assert name[2] == ATTACH_PREFIX[2] == 'a';
    }
  }
}
