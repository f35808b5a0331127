/** The end-to-end rotation scenario for three backends A, B, C, worked through on
    the model. */
module Scenario {
  import opened Registry
  import opened Selector
  import opened Rotation
  import opened Health

  function ThreeUp(): (p: Pool)
    ensures |p.backends| == 3 && p.cursor == 0
    ensures forall k :: 0 <= k < 3 ==> p.backends[k].healthy
  {
    Pool([Backend("A", "http://a", "/health", 5, true),
          Backend("B", "http://b", "/health", 5, true),
          Backend("C", "http://c", "/health", 5, true)], 0)
  }

  /** All up from A: A, B, C, A, B, C. */
  lemma AllUpRotation()
    ensures Run(ThreeUp(), 6).picks == [Picked(0), Picked(1), Picked(2), Picked(0), Picked(1), Picked(2)]
  {
    var p := ThreeUp();
    RoundRobinAllHealthy(p, 6);
    var picks := Run(p, 6).picks;
    assert picks[0] == Picked(0 % 3) && picks[1] == Picked(1 % 3) && picks[2] == Picked(2 % 3);
    assert picks[3] == Picked(3 % 3) && picks[4] == Picked(4 % 3) && picks[5] == Picked(5 % 3);
  }

  /** After those six calls the cursor is back at A. */
  lemma CursorBackAtStart()
    ensures Run(ThreeUp(), 6).pool == ThreeUp()
  {
    AllUpRotation();
    RunCursorFollowsLastPick(ThreeUp(), 6, 2);
  }

  function BDown(): (p: Pool)
    ensures |p.backends| == 3 && p.cursor == 0
    ensures p.backends[0].healthy && !p.backends[1].healthy && p.backends[2].healthy
  {
    SetHealth(ThreeUp(), 1, TransportError)
  }

  lemma BDownFromA()
    ensures Select(BDown()) == Step(Picked(0), BDown().(cursor := 1))
  {
    SelectIsFirstHealthy(BDown(), 0);
  }

  lemma BDownFromB()
    ensures Select(BDown().(cursor := 1)) == Step(Picked(2), BDown())
  {
    SelectIsFirstHealthy(BDown().(cursor := 1), 2);
  }

  /** B fails its probe while the cursor is at A: A, C, A, C. */
  lemma SkipFailedBackend()
    ensures Run(BDown(), 4).picks == [Picked(0), Picked(2), Picked(0), Picked(2)]
  {
    var q := BDown();
    BDownFromA();
    BDownFromB();
    assert Run(q, 4).picks == [Picked(0)] + Run(q.(cursor := 1), 3).picks;
    assert Run(q.(cursor := 1), 3).picks == [Picked(2)] + Run(q, 2).picks;
    assert Run(q, 2).picks == [Picked(0)] + Run(q.(cursor := 1), 1).picks;
    assert Run(q.(cursor := 1), 1).picks == [Picked(2)];
  }

  function AllDown(): (p: Pool)
    ensures NoneHealthy(p) && |p.backends| == 3
  {
    SetHealth(SetHealth(SetHealth(ThreeUp(), 0, Response(500)), 1, TransportError), 2, Response(404))
  }

  /** With all three down every call fails; once A passes a probe the next call returns A. */
  lemma DownThenRecover()
    ensures forall j :: 0 <= j < 3 ==> Run(AllDown(), 3).picks[j] == NoHealthyBackend
    ensures Select(SetHealth(AllDown(), 0, Response(200))).selection == Picked(0)
  {
    NoneHealthyAlwaysFails(AllDown(), 3);
    RecoveryIsImmediate(AllDown(), 0);
  }
}
