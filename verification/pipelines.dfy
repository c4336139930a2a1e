/**
 * Stream-composition pipelines: a list of pipeline definitions the API
 * creates, looks up, deletes, starts/stops and re-wires in place.
 *
 * Identifiers (`pipe-<uuid>`) and the creation time are arguments.
 */
module Pipelines {
  import opened Wrappers
  import opened SeqOps
  import opened JsonValues
  import opened Widths

  datatype PipelineStatus = Running | Stopped | Error

  datatype PipelineNodeType = Source | Filter | Transform | Join | Aggregate | Sink

  /** A graph node; its float canvas position is not modelled. */
  datatype PipelineNode = PipelineNode(id: string, nodeType: PipelineNodeType, config: Json)

  datatype PipelineEdge = PipelineEdge(fromNode: string, toNode: string)

  datatype Pipeline = Pipeline(
    id: string,
    name: string,
    description: string,
    nodes: seq<PipelineNode>,
    edges: seq<PipelineEdge>,
    status: PipelineStatus,
    createdAt: string,
    eventCount: u64,
    errorCount: u64)

  /** The test `p.id == id` the lookups use. */
  function HasId(id: string): Pipeline -> bool
  {
    (p: Pipeline) => p.id == id
  }

  /** No two pipelines share an identifier. */
  predicate UniqueIds(pipelines: seq<Pipeline>)
  {
    forall i, j :: 0 <= i < j < |pipelines| ==> pipelines[i].id != pipelines[j].id
  }

  class PipelineManager {
    /** `pipelines`, in creation order. */
    var pipelines: seq<Pipeline>

    constructor ()
      ensures pipelines == []
    {
      pipelines := [];
    }

    /**
     * `create`: append one stopped pipeline with zero counters, the
     * requested graph, and an empty description when none was given.
     */
    method Create(name: string, description: Option<string>, nodes: seq<PipelineNode>, edges: seq<PipelineEdge>,
                  uuid: string, now: string)
      returns (p: Pipeline)
      modifies this
      ensures pipelines == old(pipelines) + [p]
      ensures p.id == "pipe-" + uuid && p.name == name && p.nodes == nodes && p.edges == edges
      ensures p.description == (if description.Some? then description.value else "")
      ensures p.status == Stopped && p.createdAt == now && p.eventCount == 0 && p.errorCount == 0
    {
      var text := if description.Some? then description.value else "";
      p := Pipeline("pipe-" + uuid, name, text, nodes, edges, Stopped, now, 0, 0);
      pipelines := pipelines + [p];
    }

    /** `list`: every pipeline, in creation order. */
    function List(): (r: seq<Pipeline>)
      reads this
      ensures r == pipelines
    {
      pipelines
    }

    /** `get`: the first pipeline with identifier `id`, if any. */
    function Get(id: string): (r: Option<Pipeline>)
      reads this
      ensures r.Some? ==> FirstWhere(pipelines, HasId(id)).Some? && r.value == pipelines[FirstWhere(pipelines, HasId(id)).value]
      ensures r.Some? ==> r.value.id == id
      ensures r.None? <==> forall j :: 0 <= j < |pipelines| ==> pipelines[j].id != id
    {
      FindFirst(pipelines, HasId(id))
    }

    /** `delete`: remove the first pipeline with that id, or fail and change nothing. */
    method Delete(id: string) returns (r: Result<Unit, string>)
      modifies this
      ensures FirstWhere(old(pipelines), HasId(id)).None? ==>
        r == Err("Pipeline '" + id + "' not found") && pipelines == old(pipelines)
      ensures FirstWhere(old(pipelines), HasId(id)).Some? ==>
        r == Ok(Unit) && pipelines == RemoveAt(old(pipelines), FirstWhere(old(pipelines), HasId(id)).value)
    {
      match FirstWhere(pipelines, HasId(id))
      case None =>
        r := Err("Pipeline '" + id + "' not found");
      case Some(i) =>
        pipelines := RemoveAt(pipelines, i);
        r := Ok(Unit);
    }

    /** `set_status`: change the status of the first match only and return it. */
    method SetStatus(id: string, status: PipelineStatus) returns (r: Result<Pipeline, string>)
      modifies this
      ensures FirstWhere(old(pipelines), HasId(id)).None? ==>
        r == Err("Pipeline '" + id + "' not found") && pipelines == old(pipelines)
      ensures FirstWhere(old(pipelines), HasId(id)).Some? ==>
        var i := FirstWhere(old(pipelines), HasId(id)).value;
        pipelines == old(pipelines)[i := old(pipelines)[i].(status := status)] && r == Ok(pipelines[i])
    {
      match FirstWhere(pipelines, HasId(id))
      case None =>
        r := Err("Pipeline '" + id + "' not found");
      case Some(i) =>
        pipelines := pipelines[i := pipelines[i].(status := status)];
        r := Ok(pipelines[i]);
    }

    /** `update_graph`: replace only the nodes and edges of the first match and return it. */
    method UpdateGraph(id: string, nodes: seq<PipelineNode>, edges: seq<PipelineEdge>) returns (r: Result<Pipeline, string>)
      modifies this
      ensures FirstWhere(old(pipelines), HasId(id)).None? ==>
        r == Err("Pipeline '" + id + "' not found") && pipelines == old(pipelines)
      ensures FirstWhere(old(pipelines), HasId(id)).Some? ==>
        var i := FirstWhere(old(pipelines), HasId(id)).value;
        pipelines == old(pipelines)[i := old(pipelines)[i].(nodes := nodes, edges := edges)] && r == Ok(pipelines[i])
    {
      match FirstWhere(pipelines, HasId(id))
      case None =>
        r := Err("Pipeline '" + id + "' not found");
      case Some(i) =>
        pipelines := pipelines[i := pipelines[i].(nodes := nodes, edges := edges)];
        r := Ok(pipelines[i]);
    }
  }

  /**
   * After `set_status` or `update_graph` on `id`, `get(id)` returns the
   * changed pipeline: the in-place update keeps it the first match.
   */
  lemma GetAfterUpdate(pipelines: seq<Pipeline>, id: string, changed: Pipeline)
    requires FirstWhere(pipelines, HasId(id)).Some? && changed.id == id
    ensures FindFirst(pipelines[FirstWhere(pipelines, HasId(id)).value := changed], HasId(id)) == Some(changed)
  {
    FirstWhereUpdate(pipelines, HasId(id), changed);
  }

  /** With unique identifiers, a deleted pipeline can no longer be found, and uniqueness is kept. */
  lemma GetAfterDelete(pipelines: seq<Pipeline>, id: string)
    requires UniqueIds(pipelines) && FirstWhere(pipelines, HasId(id)).Some?
    ensures var rest := RemoveAt(pipelines, FirstWhere(pipelines, HasId(id)).value);
      FindFirst(rest, HasId(id)) == None && UniqueIds(rest) && |rest| == |pipelines| - 1
  {
    var i := FirstWhere(pipelines, HasId(id)).value;
    FirstWhereAfterRemove(pipelines, HasId(id));
    var tail := pipelines[i + 1..];
    forall k | 0 <= k < |tail|
      ensures !HasId(id)(tail[k])
    {
      assert tail[k] == pipelines[i + 1 + k];
    }
    FirstWhereNone(tail, HasId(id));
  }
}
