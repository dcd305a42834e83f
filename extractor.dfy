/** The extractor's driver: it tags every parsed frame record with its key,
    then plans and writes the sprites one after another, stopping at the first
    failed write. */
module Extractor {
  import opened Images
  import opened Planner

  datatype Option<T> = None | Some(value: T)

  /** What the image back end reports for one write. */
  datatype WriteResult = Written | WriteError(message: string)

  /** One output file: its path and the chain of operations that produced it. */
  datatype Output = Output(path: string, ops: seq<Op>)

  /** A parsed `frames` entry. The geometry is read only; `spriteName` is
      absent until the collection loop attaches the entry's key to it. */
  class FrameRecord {
    const geometry: Frame
    var spriteName: Option<string>

    constructor (geometry: Frame)
      ensures this.geometry == geometry && spriteName == None
    {
      this.geometry := geometry;
      spriteName := None;
    }
  }

  /** `order` is the order in which `for..in` enumerates the keys of `frames`:
      every key exactly once. */
  ghost predicate EnumerationOrder(frames: map<string, FrameRecord>, order: seq<string>)
  {
    && (forall i, j :: 0 <= i < j < |order| ==> order[i] != order[j])
    && (forall k :: k in frames <==> k in order)
  }

  /** Parsing gives every entry an object of its own. */
  ghost predicate DistinctRecords(frames: map<string, FrameRecord>)
  {
    forall k, l :: k in frames && l in frames && k != l ==> frames[k] != frames[l]
  }

  /** Where the sprite named `name` is written: the key verbatim, under the
      current directory. */
  function OutputPath(name: string): (p: string)
    ensures |p| == |name| + 2 && p[..2] == "./" && p[2..] == name
  {
    "./" + name
  }

  /** Distinct sprite names never share an output path string. */
  lemma OutputPathInjective(a: string, b: string)
    ensures OutputPath(a) == OutputPath(b) <==> a == b
  {
  }

  /** Item collection: one item per key, in enumeration order, each record
      tagged in place with its own key. */
  method CollectItems(frames: map<string, FrameRecord>, order: seq<string>)
    returns (items: seq<FrameRecord>)
    requires EnumerationOrder(frames, order)
    requires DistinctRecords(frames)
    modifies frames.Values
    ensures |items| == |order|
    ensures forall i :: 0 <= i < |items| ==> items[i] == frames[order[i]]
    ensures forall i :: 0 <= i < |items| ==> items[i].spriteName == Some(order[i])
  {
    items := [];
    var i := 0;
    while i < |order|
      invariant 0 <= i <= |order|
      invariant |items| == i
      invariant forall j :: 0 <= j < i ==> items[j] == frames[order[j]]
      invariant forall j :: 0 <= j < i ==> items[j].spriteName == Some(order[j])
    {
      var key := order[i];
      var item := frames[key];
      item.spriteName := Some(key);
      items := items + [item];
      i := i + 1;
    }
  }

  /** The sequential batch: items are planned and written strictly in list
      order; `outcomes[i]` is what the write of item `i` reports, should it be
      reached. The first failed write ends the batch, and its error is the
      single result handed on. */
  method ExtractAll(items: seq<FrameRecord>, outcomes: seq<WriteResult>)
    returns (written: seq<Output>, err: Option<string>)
    requires |outcomes| == |items|
    requires forall i :: 0 <= i < |items| ==> items[i].spriteName.Some?
    ensures |written| <= |items|
    ensures forall j :: 0 <= j < |written| ==>
      written[j] == Output(OutputPath(items[j].spriteName.value), Plan(items[j].geometry))
    ensures forall j :: 0 <= j < |written| ==> outcomes[j] == Written
    ensures err == None <==> |written| == |items|
    ensures err.Some? ==> outcomes[|written|] == WriteError(err.value)
  {
    written := [];
    err := None;
    var i := 0;
    while i < |items|
      invariant i == |written| <= |items|
      invariant forall j :: 0 <= j < i ==>
        written[j] == Output(OutputPath(items[j].spriteName.value), Plan(items[j].geometry))
      invariant forall j :: 0 <= j < i ==> outcomes[j] == Written
    {
      var item := items[i];
      var ops := PlanFrame(item.geometry);
      var path := OutputPath(item.spriteName.value);
      if outcomes[i].WriteError? {
        err := Some(outcomes[i].message);
        return;
      }
      written := written + [Output(path, ops)];
      i := i + 1;
    }
  }

  /** Collection followed by the batch. On success there is exactly one output
      per key of `frames`; on failure the outputs are those of the keys before
      the failing one, in enumeration order. */
  method Launch(frames: map<string, FrameRecord>, order: seq<string>, outcomes: seq<WriteResult>)
    returns (written: seq<Output>, err: Option<string>)
    requires EnumerationOrder(frames, order)
    requires DistinctRecords(frames)
    requires |outcomes| == |order|
    modifies frames.Values
    ensures |written| <= |order|
    ensures forall j :: 0 <= j < |written| ==>
      written[j] == Output(OutputPath(order[j]), Plan(frames[order[j]].geometry))
    ensures forall i, j :: 0 <= i < j < |written| ==> written[i].path != written[j].path
    ensures forall j :: 0 <= j < |written| ==> outcomes[j] == Written
    ensures err == None <==> |written| == |order|
    ensures err.Some? ==> outcomes[|written|] == WriteError(err.value)
    ensures err == None ==>
      forall k :: k in frames <==> exists j :: 0 <= j < |written| && written[j].path == OutputPath(k)
    ensures forall k :: k in frames ==> frames[k].spriteName == Some(k)
  {
    var items := CollectItems(frames, order);
    forall k | k in frames
      ensures frames[k].spriteName == Some(k)
    {
      var j :| 0 <= j < |order| && order[j] == k;
      assert items[j] == frames[k];
    }
    written, err := ExtractAll(items, outcomes);
    forall i, j | 0 <= i < j < |written|
      ensures written[i].path != written[j].path
    {
      OutputPathInjective(order[i], order[j]);
    }
    if err == None {
      forall k
        ensures k in frames <==> exists j :: 0 <= j < |written| && written[j].path == OutputPath(k)
      {
        if k in frames {
          var j :| 0 <= j < |order| && order[j] == k;
          assert written[j].path == OutputPath(k);
        }
        if exists j :: 0 <= j < |written| && written[j].path == OutputPath(k) {
          var j :| 0 <= j < |written| && written[j].path == OutputPath(k);
          OutputPathInjective(order[j], k);
        }
      }
    }
  }
}
