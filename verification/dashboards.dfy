/**
 * Dashboards: named layouts of widgets the API creates, looks up,
 * re-arranges and deletes.
 *
 * Identifiers (`dash-<uuid>`) and clock readings are arguments.
 */
module Dashboards {
  import opened Wrappers
  import opened SeqOps
  import opened Widths

  /** The 32-bit signed grid coordinates. */
  type i32 = x: int | -0x8000_0000 <= x < 0x8000_0000

  datatype GridItem = GridItem(i: string, x: i32, y: i32, w: i32, h: i32)

  datatype Widget =
    | TimeSeries(id: string, title: string, query: string)
    | Value(id: string, title: string, stream: string, field: string, unit: Option<string>)
    | Table(id: string, title: string, query: string, columns: seq<string>)
    | LogStream(id: string, title: string, stream: string)

  datatype Dashboard = Dashboard(
    id: string,
    name: string,
    description: Option<string>,
    layout: seq<GridItem>,
    widgets: seq<Widget>,
    createdAt: string,
    updatedAt: string)

  const NOT_FOUND := "Dashboard not found"

  /** The test `d.id == id` the lookups use. */
  function HasId(id: string): Dashboard -> bool
  {
    (d: Dashboard) => d.id == id
  }

  class DashboardManager {
    /** `dashboards`, in creation order. */
    var dashboards: seq<Dashboard>

    constructor ()
      ensures dashboards == []
    {
      dashboards := [];
    }

    /** `list`: every dashboard, in creation order. */
    function List(): (r: seq<Dashboard>)
      reads this
      ensures r == dashboards
    {
      dashboards
    }

    /** `create`: append one dashboard with no layout and no widgets, created and updated now. */
    method Create(name: string, description: Option<string>, uuid: string, now: string) returns (d: Dashboard)
      modifies this
      ensures dashboards == old(dashboards) + [d]
      ensures d.id == "dash-" + uuid && d.name == name && d.description == description
      ensures d.layout == [] && d.widgets == [] && d.createdAt == now && d.updatedAt == d.createdAt
    {
      d := Dashboard("dash-" + uuid, name, description, [], [], now, now);
      dashboards := dashboards + [d];
    }

    /** `get`: the first dashboard with identifier `id`, if any. */
    function Get(id: string): (r: Option<Dashboard>)
      reads this
      ensures r.Some? ==> FirstWhere(dashboards, HasId(id)).Some? && r.value == dashboards[FirstWhere(dashboards, HasId(id)).value]
      ensures r.Some? ==> r.value.id == id
      ensures r.None? <==> forall j :: 0 <= j < |dashboards| ==> dashboards[j].id != id
    {
      FindFirst(dashboards, HasId(id))
    }

    /**
     * `update`: replace the layout, the widgets and the update time of the
     * first match, keeping its identity, name, description and creation
     * time; an unknown id changes nothing.
     */
    method Update(id: string, layout: seq<GridItem>, widgets: seq<Widget>, now: string) returns (r: Result<Dashboard, string>)
      modifies this
      ensures FirstWhere(old(dashboards), HasId(id)).None? ==> r == Err(NOT_FOUND) && dashboards == old(dashboards)
      ensures FirstWhere(old(dashboards), HasId(id)).Some? ==>
        var i := FirstWhere(old(dashboards), HasId(id)).value;
        dashboards == old(dashboards)[i := old(dashboards)[i].(layout := layout, widgets := widgets, updatedAt := now)]
        && r == Ok(dashboards[i])
    {
      match FirstWhere(dashboards, HasId(id))
      case None =>
        r := Err(NOT_FOUND);
      case Some(i) =>
        dashboards := dashboards[i := dashboards[i].(layout := layout, widgets := widgets, updatedAt := now)];
        r := Ok(dashboards[i]);
    }

    /** `delete`: remove the first match, or fail and change nothing. */
    method Delete(id: string) returns (r: Result<Unit, string>)
      modifies this
      ensures FirstWhere(old(dashboards), HasId(id)).None? ==> r == Err(NOT_FOUND) && dashboards == old(dashboards)
      ensures FirstWhere(old(dashboards), HasId(id)).Some? ==>
        r == Ok(Unit) && dashboards == RemoveAt(old(dashboards), FirstWhere(old(dashboards), HasId(id)).value)
    {
      match FirstWhere(dashboards, HasId(id))
      case None =>
        r := Err(NOT_FOUND);
      case Some(i) =>
        dashboards := RemoveAt(dashboards, i);
        r := Ok(Unit);
    }
  }

  /**
   * `get` after `update` returns the updated dashboard, and every other
   * dashboard is left as it was.
   */
  lemma GetAfterUpdate(dashboards: seq<Dashboard>, id: string, layout: seq<GridItem>, widgets: seq<Widget>, now: string)
    requires FirstWhere(dashboards, HasId(id)).Some?
    ensures var i := FirstWhere(dashboards, HasId(id)).value;
      var after := dashboards[i := dashboards[i].(layout := layout, widgets := widgets, updatedAt := now)];
      FindFirst(after, HasId(id)) == Some(after[i])
      && after[i].createdAt == dashboards[i].createdAt && after[i].name == dashboards[i].name
      && forall j :: 0 <= j < |dashboards| && j != i ==> after[j] == dashboards[j]
  {
    var i := FirstWhere(dashboards, HasId(id)).value;
    FirstWhereUpdate(dashboards, HasId(id), dashboards[i].(layout := layout, widgets := widgets, updatedAt := now));
  }

  /**
   * `delete` removes exactly one dashboard: the rest keep their order, and
   * the next lookup of the same id finds the next dashboard with it, if any.
   */
  lemma DeleteRemovesOne(dashboards: seq<Dashboard>, id: string)
    requires FirstWhere(dashboards, HasId(id)).Some?
    ensures var i := FirstWhere(dashboards, HasId(id)).value;
      var rest := RemoveAt(dashboards, i);
      |rest| == |dashboards| - 1 && multiset(rest) + multiset{dashboards[i]} == multiset(dashboards)
      && FindFirst(rest, HasId(id)) == FindFirst(dashboards[i + 1..], HasId(id))
  {
    var i := FirstWhere(dashboards, HasId(id)).value;
    var tail := dashboards[i + 1..];
    FirstWhereAfterRemove(dashboards, HasId(id));
    if FirstWhere(tail, HasId(id)).Some? {
      var k := FirstWhere(tail, HasId(id)).value;
      assert RemoveAt(dashboards, i)[i + k] == tail[k];
    }
  }
}
