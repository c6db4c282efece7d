/** Two places where main.js's session globals outlive what they refer to,
    each exhibited on a concrete diagram with the handler as written, next to
    the corrected handler the rest of the model uses. */
module Findings {
  import opened Seqs
  import opened Entities
  import opened Diagrams
  import opened Interaction

  /** A team member and a project, not connected. */
  const TeamAndProject: Diagram :=
    Diagram([NewNode(0, "a", Team, 100, 100), NewNode(1, "b", Project, 300, 100)], [], [], 2)

  /** A node well away from a labelled 100 by 100 region at the origin. */
  const NodeBesideRegion: Diagram :=
    Diagram([NewNode(0, "a", Team, 300, 300)], [], [Region(1, 0, 0, 100, 100, "R", "")], 2)

  /** Every label measures 40 wide. */
  function FixedWidth(t: string): int {
    40
  }

  /** As written: in connecting mode, select the team member, delete it from
      its dialog, then click the project. The selection still refers to the
      deleted node, so the project is joined to a node the diagram no longer
      has. */
  lemma StaleSelectionDangles()
    ensures
      var d0 := TeamAndProject;
      var (d1, s1) := ConnectClickAsWritten(d0, Initial.(isConnecting := true), d0.nodes[0]);
      var d2 := OnDialog(d1, s1, NodeTarget(0), Deleted).diagram;
      var (d3, s3) := ConnectClickAsWritten(d2, s1, d2.nodes[0]);
      Valid(d0) && Valid(d2) && s1.selectedNode.Some? && !NoDangling(d3)
  {
    var d0 := TeamAndProject;
    var (d1, s1) := ConnectClickAsWritten(d0, Initial.(isConnecting := true), d0.nodes[0]);
    var d2 := OnDialog(d1, s1, NodeTarget(0), Deleted).diagram;
    assert d2.nodes == [d0.nodes[1]] by {
      assert d1 == d0;
      TeamDeleted();
    }
    var (d3, s3) := ConnectClickAsWritten(d2, s1, d2.nodes[0]);
    assert d3.connections == [Connection(d0.nodes[0].ref, d0.nodes[1].ref)];
    assert !HasNode(d3.nodes, d0.nodes[0].ref);
  }

  /** Corrected: the same click sequence with `ConnectClick` makes the
      project the new selection and adds no connection. */
  lemma StaleSelectionReplaced()
    ensures
      var d0 := TeamAndProject;
      var (d1, s1) := ConnectClick(d0, Initial.(isConnecting := true), d0.nodes[0]);
      var d2 := OnDialog(d1, s1, NodeTarget(0), Deleted).diagram;
      var (d3, s3) := ConnectClick(d2, s1, d2.nodes[0]);
      d3 == d2 && s3.selectedNode == Some(d0.nodes[1].ref) && NoDangling(d3)
  {
    var d0 := TeamAndProject;
    var (d1, s1) := ConnectClick(d0, Initial.(isConnecting := true), d0.nodes[0]);
    var d2 := OnDialog(d1, s1, NodeTarget(0), Deleted).diagram;
    assert d2.nodes == [d0.nodes[1]] by {
      assert d1 == d0;
      TeamDeleted();
    }
    assert !HasNode(d2.nodes, d0.nodes[0].ref);
  }

  /** From page load: add a team member and a project, start connecting,
      click the team member, delete it from its dialog, click the project. */
  const StaleSelectionEvents: seq<Event> := [
    AddNodeCommand(Team, 100, 100, "a"), AddNodeCommand(Project, 300, 100, "b"),
    StartConnection, Click(100, 100), Dialog(NodeTarget(0), Deleted), Click(300, 100)]

  /** Connecting mode with nothing selected yet. */
  const Connecting: Session := Initial.(isConnecting := true)

  lemma UnrollAsWritten(d: Diagram, s: Session, es: seq<Event>)
    requires |es| > 0
    ensures RunAsWritten(d, s, es)
         == RunAsWritten(StepAsWritten(d, s, es[0]).diagram, StepAsWritten(d, s, es[0]).session, es[1..])
  {
  }

  lemma Unroll(d: Diagram, s: Session, es: seq<Event>)
    requires |es| > 0
    ensures Run(d, s, es) == Run(Step(d, s, es[0]).diagram, Step(d, s, es[0]).session, es[1..])
  {
  }

  /** The two additions and the start of connecting mode. */
  lemma SetupSteps(d1: Diagram)
    requires d1 == AddNode(Empty, Team, 100, 100, "a")
    ensures Step(Empty, Initial, StaleSelectionEvents[0]) == Outcome(d1, Initial, NoEffect)
    ensures Step(d1, Initial, StaleSelectionEvents[1]) == Outcome(TeamAndProject, Initial, NoEffect)
    ensures Step(TeamAndProject, Initial, StaleSelectionEvents[2]) == Outcome(TeamAndProject, Connecting, NoEffect)
  {
    assert StaleSelectionEvents[0] == AddNodeCommand(Team, 100, 100, "a");
    assert StaleSelectionEvents[1] == AddNodeCommand(Project, 300, 100, "b");
    assert StaleSelectionEvents[2] == StartConnection;
    assert AddNode(d1, Project, 300, 100, "b") == TeamAndProject;
  }

  lemma SetupRunAsWritten()
    ensures RunAsWritten(Empty, Initial, StaleSelectionEvents)
         == RunAsWritten(TeamAndProject, Connecting, StaleSelectionEvents[3..])
  {
    var es := StaleSelectionEvents;
    var d1 := AddNode(Empty, Team, 100, 100, "a");
    SetupSteps(d1);
    UnrollAsWritten(Empty, Initial, es);
    UnrollAsWritten(d1, Initial, es[1..]);
    UnrollAsWritten(TeamAndProject, Initial, es[2..]);
    assert es[1..][1..] == es[2..] && es[2..][1..] == es[3..];
  }

  lemma SetupRun()
    ensures Run(Empty, Initial, StaleSelectionEvents) == Run(TeamAndProject, Connecting, StaleSelectionEvents[3..])
  {
    var es := StaleSelectionEvents;
    var d1 := AddNode(Empty, Team, 100, 100, "a");
    SetupSteps(d1);
    Unroll(Empty, Initial, es);
    Unroll(d1, Initial, es[1..]);
    Unroll(TeamAndProject, Initial, es[2..]);
    assert es[1..][1..] == es[2..] && es[2..][1..] == es[3..];
  }

  /** A connecting click on the team member, with nothing selected, selects it. */
  lemma SelectTeam(s4: Session)
    requires s4 == Connecting.(selectedNode := Some(TeamAndProject.nodes[0].ref))
    ensures Step(TeamAndProject, Connecting, StaleSelectionEvents[3]) == Outcome(TeamAndProject, s4, NoEffect)
  {
    assert IsFirst(TeamAndProject.nodes, HitsNode(100, 100), 0) by {
      assert NodeHit(TeamAndProject.nodes[0], 100, 100);
    }
  }

  lemma SelectTeamAsWritten(s4: Session)
    requires s4 == Connecting.(selectedNode := Some(TeamAndProject.nodes[0].ref))
    ensures StepAsWritten(TeamAndProject, Connecting, StaleSelectionEvents[3]) == Outcome(TeamAndProject, s4, NoEffect)
  {
    SelectTeam(s4);
  }

  /** Deleting the team member leaves only the project. */
  lemma TeamDeleted()
    ensures DeleteNode(TeamAndProject, 0).nodes == [TeamAndProject.nodes[1]]
  {
    assert TeamAndProject.nodes[0].ref.handle == 0;
    assert HandlesIssued(TeamAndProject);
    DeleteNodeRemovesSlot(TeamAndProject, 0);
  }

  /** Its dialog deletes the team member and leaves the selection as it was. */
  lemma DeleteTeam(s4: Session, d5: Diagram)
    requires d5 == DeleteNode(TeamAndProject, 0)
    ensures Step(TeamAndProject, s4, StaleSelectionEvents[4]) == Outcome(d5, s4, NoEffect)
    ensures d5.nodes == [TeamAndProject.nodes[1]]
  {
    assert StaleSelectionEvents[4] == Dialog(NodeTarget(0), Deleted);
    StepDialog(TeamAndProject, s4, NodeTarget(0), Deleted);
    TeamDeleted();
  }

  /** A dialog answer is handled by `OnDialog`. */
  lemma StepDialog(d: Diagram, s: Session, t: Target, outcome: DialogOutcome)
    ensures outcome.Deleted? && t.NodeTarget? ==> Step(d, s, Dialog(t, outcome)) == Outcome(DeleteNode(d, t.node), s, NoEffect)
  {
    assert Step(d, s, Dialog(t, outcome)) == OnDialog(d, s, t, outcome);
  }

  lemma SelectThenDelete(s4: Session, d5: Diagram)
    requires s4 == Connecting.(selectedNode := Some(TeamAndProject.nodes[0].ref))
    requires d5 == DeleteNode(TeamAndProject, 0)
    ensures StepAsWritten(TeamAndProject, Connecting, StaleSelectionEvents[3]) == Outcome(TeamAndProject, s4, NoEffect)
    ensures Step(TeamAndProject, Connecting, StaleSelectionEvents[3]) == Outcome(TeamAndProject, s4, NoEffect)
    ensures Step(TeamAndProject, s4, StaleSelectionEvents[4]) == Outcome(d5, s4, NoEffect)
    ensures d5.nodes == [TeamAndProject.nodes[1]]
  {
    SelectTeam(s4);
    SelectTeamAsWritten(s4);
    DeleteTeam(s4, d5);
  }

  lemma MiddleRunAsWritten(s4: Session, d5: Diagram)
    requires s4 == Connecting.(selectedNode := Some(TeamAndProject.nodes[0].ref))
    requires d5 == DeleteNode(TeamAndProject, 0)
    ensures RunAsWritten(TeamAndProject, Connecting, StaleSelectionEvents[3..])
         == RunAsWritten(d5, s4, StaleSelectionEvents[5..])
  {
    var es := StaleSelectionEvents;
    SelectThenDelete(s4, d5);
    UnrollAsWritten(TeamAndProject, Connecting, es[3..]);
    UnrollAsWritten(TeamAndProject, s4, es[4..]);
    assert es[3..][1..] == es[4..] && es[4..][1..] == es[5..];
  }

  lemma MiddleRun(s4: Session, d5: Diagram)
    requires s4 == Connecting.(selectedNode := Some(TeamAndProject.nodes[0].ref))
    requires d5 == DeleteNode(TeamAndProject, 0)
    ensures Run(TeamAndProject, Connecting, StaleSelectionEvents[3..]) == Run(d5, s4, StaleSelectionEvents[5..])
  {
    var es := StaleSelectionEvents;
    SelectThenDelete(s4, d5);
    Unroll(TeamAndProject, Connecting, es[3..]);
    Unroll(TeamAndProject, s4, es[4..]);
    assert es[3..][1..] == es[4..] && es[4..][1..] == es[5..];
  }

  /** As written, the click on the project joins it to the deleted team member. */
  lemma LastClickAsWritten(s4: Session, d5: Diagram)
    requires s4 == Connecting.(selectedNode := Some(TeamAndProject.nodes[0].ref))
    requires d5.nodes == [TeamAndProject.nodes[1]]
    ensures StepAsWritten(d5, s4, StaleSelectionEvents[5]).diagram.connections
         == d5.connections + [Connection(TeamAndProject.nodes[0].ref, TeamAndProject.nodes[1].ref)]
    ensures StepAsWritten(d5, s4, StaleSelectionEvents[5]).diagram.nodes == d5.nodes
    ensures !NoDangling(StepAsWritten(d5, s4, StaleSelectionEvents[5]).diagram)
  {
    var n0, n1 := TeamAndProject.nodes[0], TeamAndProject.nodes[1];
    assert StaleSelectionEvents[5] == Click(300, 100);
    assert IsFirst(d5.nodes, HitsNode(300, 100), 0) by {
      assert NodeHit(n1, 300, 100);
    }
    var d6 := StepAsWritten(d5, s4, StaleSelectionEvents[5]).diagram;
    assert d6.connections[|d6.connections| - 1].from == n0.ref;
    assert !HasNode(d6.nodes, n0.ref);
  }

  /** Corrected, the same click makes the project the selection and adds nothing. */
  lemma LastClick(s4: Session, d5: Diagram)
    requires s4 == Connecting.(selectedNode := Some(TeamAndProject.nodes[0].ref))
    requires d5.nodes == [TeamAndProject.nodes[1]]
    ensures Step(d5, s4, StaleSelectionEvents[5]) == Outcome(d5, s4.(selectedNode := Some(TeamAndProject.nodes[1].ref)), NoEffect)
  {
    var n0, n1 := TeamAndProject.nodes[0], TeamAndProject.nodes[1];
    assert StaleSelectionEvents[5] == Click(300, 100);
    assert IsFirst(d5.nodes, HitsNode(300, 100), 0) by {
      assert NodeHit(n1, 300, 100);
    }
    assert !HasNode(d5.nodes, n0.ref);
  }

  /** As written, that event sequence from page load reaches a diagram with
      a connection to a node it no longer has. */
  lemma AsWrittenRunDangles()
    ensures !NoDangling(RunAsWritten(Empty, Initial, StaleSelectionEvents).0)
  {
    var es := StaleSelectionEvents;
    var n0 := TeamAndProject.nodes[0];
    var s4 := Connecting.(selectedNode := Some(n0.ref));
    var d5 := DeleteNode(TeamAndProject, 0);
    SetupRunAsWritten();
    MiddleRunAsWritten(s4, d5);
    DeleteTeam(s4, d5);
    LastClickAsWritten(s4, d5);
    UnrollAsWritten(d5, s4, es[5..]);
    assert es[5..][1..] == [];
  }

  /** Corrected, the same event sequence leaves no dangling connection, and
      the project becomes the selection. */
  lemma CorrectedRunStaysValid()
    ensures NoDangling(Run(Empty, Initial, StaleSelectionEvents).0)
    ensures Run(Empty, Initial, StaleSelectionEvents).1.selectedNode == Some(TeamAndProject.nodes[1].ref)
  {
    ReachableStatesValid(StaleSelectionEvents);
    var es := StaleSelectionEvents;
    var s4 := Connecting.(selectedNode := Some(TeamAndProject.nodes[0].ref));
    var d5 := DeleteNode(TeamAndProject, 0);
    SetupRun();
    MiddleRun(s4, d5);
    DeleteTeam(s4, d5);
    LastClick(s4, d5);
    Unroll(d5, s4, es[5..]);
    assert es[5..][1..] == [];
  }

  /** As written: a mousedown on the region body captures it; its mouseup is
      lost (released outside the canvas); a mousedown on the node then
      captures the node as well, and the next move drags the region, not the
      node under the pointer. */
  lemma StaleCaptureDragsRegion()
    ensures
      var d := NodeBesideRegion;
      var s1 := OnMouseDownAsWritten(d, Initial, 50, 50, FixedWidth);
      var s2 := OnMouseDownAsWritten(d, s1, 300, 300, FixedWidth);
      var o := OnMouseMove(d, s2, 310, 300);
      && !AtMostOneCapture(s2)
      && o.diagram.nodes == d.nodes
      && o.diagram.regions[0].x == 10
  {
    var d := NodeBesideRegion;
    NoneUnderRegionPoint(d);
    var s1 := OnMouseDownAsWritten(d, Initial, 50, 50, FixedWidth);
    assert s1.draggedRegion == Some(1) && s1.draggedNode.None?;
    assert IsFirst(d.nodes, HitsNode(300, 300), 0);
    var s2 := OnMouseDownAsWritten(d, s1, 300, 300, FixedWidth);
    assert s2.draggedNode == Some(0) && s2.draggedRegion == Some(1);
  }

  /** The point (50, 50) hits the region body only. */
  lemma NoneUnderRegionPoint(d: Diagram)
    requires d == NodeBesideRegion
    ensures NoneMatch(d.nodes, HitsNode(50, 50))
    ensures NoneMatch(d.regions, HitsHandle(50, 50))
    ensures NoneMatch(d.regions, HitsLabel(50, 50, FixedWidth))
    ensures IsFirst(d.regions, HitsRegion(50, 50), 0)
  {
    assert !NodeHit(d.nodes[0], 50, 50);
    assert FixedWidth(d.regions[0].labelText) == 40;
    assert !HitsLabel(50, 50, FixedWidth)(d.regions[0]);
  }

  /** Corrected: with `OnMouseDown`, the second mousedown releases the stale
      capture, so the move drags the node under the pointer and the region
      stays where it was. */
  lemma StaleCaptureReleased()
    ensures
      var d := NodeBesideRegion;
      var s1 := OnMouseDown(d, Initial, 50, 50, FixedWidth);
      var s2 := OnMouseDown(d, s1, 300, 300, FixedWidth);
      var o := OnMouseMove(d, s2, 310, 300);
      && AtMostOneCapture(s2)
      && o.diagram.regions == d.regions
      && o.diagram.nodes[0].x == 310
  {
    var d := NodeBesideRegion;
    NoneUnderRegionPoint(d);
    var s1 := OnMouseDown(d, Initial, 50, 50, FixedWidth);
    assert IsFirst(d.nodes, HitsNode(300, 300), 0);
    var s2 := OnMouseDown(d, s1, 300, 300, FixedWidth);
    assert s2.draggedNode == Some(0) && s2.draggedRegion.None? && s2.resizingRegion.None?;
  }
}
