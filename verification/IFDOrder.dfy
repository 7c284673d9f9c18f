/** The map that a directory keeps its entries in: one for each tag, in ascending order of tags. */
module IFDOrder {
  import opened IFDFormat

  ghost predicate Ascending(fields: seq<Field>)
  {
    forall i, j :: 0 <= i < j < |fields| ==> fields[i].tag < fields[j].tag
  }

  /** The number of leading entries with smaller tags. */
  ghost function Place(fields: seq<Field>, tag: nat): (i: nat)
    ensures i <= |fields| && (forall k :: 0 <= k < i ==> fields[k].tag < tag)
    ensures i < |fields| ==> tag <= fields[i].tag
  {
    if fields == [] then 0
    else if fields[0].tag < tag then 1 + Place(fields[1..], tag)
    else 0
  }

  /** Where the entries behind a new one begin: a tag that is there already is replaced. */
  ghost function Behind(fields: seq<Field>, tag: nat): (i: nat)
    ensures i <= |fields|
  {
    var i := Place(fields, tag);
    if i < |fields| && fields[i].tag == tag then i + 1 else i
  }

  /** Setting the entry of a tag. */
  ghost function Put(fields: seq<Field>, f: Field): (r: seq<Field>)
  {
    fields[..Place(fields, f.tag)] + [f] + fields[Behind(fields, f.tag)..]
  }

  lemma PutIs(fields: seq<Field>, f: Field, i: nat, behind: nat)
    requires i == Place(fields, f.tag)
    requires behind == if i < |fields| && fields[i].tag == f.tag then i + 1 else i
    ensures behind <= |fields| && Put(fields, f) == fields[..i] + [f] + fields[behind..]
  {
  }

  /** The directory stays in order. */
  lemma PutKeepsOrder(fields: seq<Field>, f: Field)
    requires Ascending(fields)
    ensures Ascending(Put(fields, f))
  {
  }

  /** The new entry is in the directory, and so are all those of other tags that were. */
  lemma PutKeepsOthers(fields: seq<Field>, f: Field, g: Field)
    requires Ascending(fields)
    ensures f in Put(fields, f)
    ensures g.tag != f.tag ==> (g in Put(fields, f) <==> g in fields)
  {
  }

  ghost function PutAll(fields: seq<Field>, more: seq<Field>): (r: seq<Field>)
  {
    if more == [] then fields else Put(PutAll(fields, more[..|more| - 1]), more[|more| - 1])
  }

  lemma {:induction false} PutAllKeeps(fields: seq<Field>, more: seq<Field>)
    requires Ascending(fields)
    ensures Ascending(PutAll(fields, more))
  {
    if more != [] {
      PutAllKeeps(fields, more[..|more| - 1]);
      PutKeepsOrder(PutAll(fields, more[..|more| - 1]), more[|more| - 1]);
    }
  }

  lemma {:induction false} PutAllLength(fields: seq<Field>, more: seq<Field>)
    ensures |PutAll(fields, more)| <= |fields| + |more|
  {
    if more != [] {
      PutAllLength(fields, more[..|more| - 1]);
    }
  }

  /** An entry behind all others comes last. */
  lemma PutLast(fields: seq<Field>, f: Field)
    requires Ascending(fields + [f])
    ensures Put(fields, f) == fields + [f]
  {
    var all := fields + [f];
    forall k | 0 <= k < |fields|
      ensures fields[k].tag < f.tag
    {
      assert all[k].tag < all[|fields|].tag;
    }
  }

  /** Ascending entries are read into an empty directory as they are. */
  lemma {:induction false} PutAllAscending(fields: seq<Field>)
    requires Ascending(fields)
    ensures PutAll([], fields) == fields
  {
    hide Put;
    if fields != [] {
      var before, last := fields[..|fields| - 1], fields[|fields| - 1];
      assert fields == before + [last];
      PutAllAscending(before);
      PutLast(before, last);
    }
  }
}
