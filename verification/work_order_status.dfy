/**
 The work-order status state machine: the six statuses an order can be in,
 the table of allowed transitions between them, and the facts about that
 table the rest of the model relies on (no self transitions, two terminal
 statuses, cancellation from every open status, a single forward path, and
 no cycles).
 */
module WorkOrderStatus {
  import opened Results

  datatype Status = Recibida | Diagnostico | EnProceso | Lista | Entregada | Cancelada

  /** The name stored in the status column and sent over the API. */
  function Name(s: Status): string
  {
    match s
    case Recibida => "RECIBIDA"
    case Diagnostico => "DIAGNOSTICO"
    case EnProceso => "EN_PROCESO"
    case Lista => "LISTA"
    case Entregada => "ENTREGADA"
    case Cancelada => "CANCELADA"
  }

  /** Reads a status name as received in a request body or query string. */
  function Parse(name: string): (r: Option<Status>)
    ensures r.Some? ==> Name(r.value) == name
    ensures r.None? ==> forall s :: Name(s) != name
  {
    if name == "RECIBIDA" then Some(Recibida)
    else if name == "DIAGNOSTICO" then Some(Diagnostico)
    else if name == "EN_PROCESO" then Some(EnProceso)
    else if name == "LISTA" then Some(Lista)
    else if name == "ENTREGADA" then Some(Entregada)
    else if name == "CANCELADA" then Some(Cancelada)
    else None
  }

  /** Every status name reads back as that status. */
  lemma ParseName(s: Status)
    ensures Parse(Name(s)) == Some(s)
  {
  }

  /** The list of statuses the status column accepts, in declaration order. */
  const ValidStatuses: seq<Status> := [Recibida, Diagnostico, EnProceso, Lista, Entregada, Cancelada]

  /** The status list has six entries, no repeats, and names every status. */
  lemma ValidStatusesComplete()
    ensures |ValidStatuses| == 6
    ensures forall i, j :: 0 <= i < j < |ValidStatuses| ==> ValidStatuses[i] != ValidStatuses[j]
    ensures forall s :: s in ValidStatuses
  {
    forall s ensures s in ValidStatuses {
      match s
      case Recibida => assert ValidStatuses[0] == s;
      case Diagnostico => assert ValidStatuses[1] == s;
      case EnProceso => assert ValidStatuses[2] == s;
      case Lista => assert ValidStatuses[3] == s;
      case Entregada => assert ValidStatuses[4] == s;
      case Cancelada => assert ValidStatuses[5] == s;
    }
  }

  /** The two statuses after which an order can no longer be edited. */
  predicate IsTerminal(s: Status)
  {
    s == Entregada || s == Cancelada
  }

  /**
   Position along the repair path: intake is 0, delivery is 4.
   Cancellation ends the path, so it shares the last position.
   */
  function Stage(s: Status): (n: nat)
    ensures n <= 4
    ensures n == 4 <==> IsTerminal(s)
  {
    match s
    case Recibida => 0
    case Diagnostico => 1
    case EnProceso => 2
    case Lista => 3
    case Entregada => 4
    case Cancelada => 4
  }

  /**
   The transition table: the statuses an order in status `s` may move to,
   in the order the table lists them.
   */
  function AllowedTargets(s: Status): (r: seq<Status>)
    ensures s !in r
    ensures r == [] <==> IsTerminal(s)
    ensures !IsTerminal(s) ==> Cancelada in r
    ensures forall t :: t in r ==> t in ValidStatuses && Stage(s) < Stage(t)
  {
    match s
    case Recibida => [Diagnostico, Cancelada]
    case Diagnostico => [EnProceso, Cancelada]
    case EnProceso => [Lista, Cancelada]
    case Lista => [Entregada, Cancelada]
    case Entregada => []
    case Cancelada => []
  }

  predicate CanTransition(from: Status, to: Status)
  {
    to in AllowedTargets(from)
  }

  /** The next status along the repair path from an open status. */
  function Advance(s: Status): (r: Status)
    requires !IsTerminal(s)
    ensures r != Cancelada
    ensures Stage(r) == Stage(s) + 1
  {
    match s
    case Recibida => Diagnostico
    case Diagnostico => EnProceso
    case EnProceso => Lista
    case Lista => Entregada
  }

  /**
   From an open status exactly two moves are allowed: one step forward along
   the repair path, or cancellation. From a terminal status none is.
   */
  lemma TransitionsFromStatus(s: Status)
    ensures !IsTerminal(s) ==> forall t :: CanTransition(s, t) <==> t == Advance(s) || t == Cancelada
    ensures IsTerminal(s) ==> forall t :: !CanTransition(s, t)
  {
  }

  /** The forward path visits the open statuses in order and ends at delivery. */
  lemma ForwardPath()
    ensures Advance(Recibida) == Diagnostico
    ensures Advance(Diagnostico) == EnProceso
    ensures Advance(EnProceso) == Lista
    ensures Advance(Lista) == Entregada
  {
  }

  /** A sequence of statuses in which each consecutive pair is an allowed move. */
  ghost predicate IsRun(p: seq<Status>)
  {
    forall i :: 0 <= i < |p| - 1 ==> CanTransition(p[i], p[i + 1])
  }

  /** Along any run the stage strictly increases. */
  lemma {:induction false} RunStageIncreases(p: seq<Status>)
    requires IsRun(p)
    ensures forall i, j :: 0 <= i < j < |p| ==> Stage(p[i]) + (j - i) <= Stage(p[j])
    decreases |p|
  {
    if |p| > 1 {
      var q := p[..|p| - 1];
      assert IsRun(q) by {
        forall i | 0 <= i < |q| - 1
          ensures CanTransition(q[i], q[i + 1])
        {
          assert q[i] == p[i] && q[i + 1] == p[i + 1];
        }
      }
      RunStageIncreases(q);
      var last := |p| - 1;
      assert CanTransition(p[last - 1], p[last]);
      forall i, j | 0 <= i < j < |p|
        ensures Stage(p[i]) + (j - i) <= Stage(p[j])
      {
        if j < last {
          assert q[i] == p[i] && q[j] == p[j];
        } else if i < last - 1 {
          assert q[i] == p[i] && q[last - 1] == p[last - 1];
        }
      }
    }
  }

  /**
   The transition relation has no cycles: a run makes at most four moves
   and never visits a status twice.
   */
  lemma RunsAreShortAndSimple(p: seq<Status>)
    requires IsRun(p)
    ensures |p| <= 5
    ensures forall i, j :: 0 <= i < j < |p| ==> p[i] != p[j]
  {
    RunStageIncreases(p);
    if |p| > 0 {
      assert Stage(p[0]) + (|p| - 1) <= Stage(p[|p| - 1]);
    }
  }

  /** The full repair path is a run of the maximal length. */
  lemma RepairPathIsRun()
    ensures IsRun([Recibida, Diagnostico, EnProceso, Lista, Entregada])
  {
  }
}
