/** The map-colouring instance that main.py hands to the engine: the seven regions
    of Australia, four colours each, neighbouring regions in different colours. */
module Australia {
  import opened CspSpec
  import opened Csp

  datatype Region = WA | NT | SA | Q | NSW | V | T
  datatype Colour = Red | Green | Blue | Yellow

  const Regions: seq<Region> := [WA, NT, SA, Q, NSW, V, T]
  const Palette: seq<Colour> := [Red, Green, Blue, Yellow]

  /** Every region starts with all four colours. */
  const Colours: map<Region, seq<Colour>> := map r | r in Regions :: Palette

  /** The neighbour lists of main.py, in their order; Tasmania has none. */
  const Neighbours: map<Region, seq<Region>> := map[
    WA := [NT, SA],
    NT := [WA, SA, Q, NSW],
    SA := [WA, NT, Q, NSW, V],
    Q := [NT, SA, NSW],
    NSW := [SA, Q, V, NT],
    V := [SA, NSW],
    T := []]

  /** The constraint of main.py: the two colours differ. */
  function DifferentColours(r1: Region, c1: Colour, r2: Region, c2: Colour): bool {
    c1 != c2
  }

  function AustraliaProblem(): Problem<Region, Colour> {
    Problem(Regions, Colours, Neighbours, DifferentColours)
  }

  /** The shared borders, each listed once: an independent statement of what a
      proper colouring of this map is. */
  const Borders: seq<(Region, Region)> := [
    (WA, NT), (WA, SA), (NT, SA), (NT, Q), (NT, NSW), (SA, Q), (SA, NSW), (SA, V), (Q, NSW), (NSW, V)]

  ghost predicate ProperColouring(s: map<Region, Colour>) {
    && (forall r: Region :: r in s)
    && (forall b :: b in Borders ==> s[b.0] != s[b.1])
  }

  /** Every listed neighbour pair is a border, in one direction or the other. */
  lemma NeighboursAreBorders(r: Region, n: Region)
    requires n in NeighborsOf(AustraliaProblem(), r)
    ensures (r, n) in Borders || (n, r) in Borders
  {
  }

  /** Every border is listed as a neighbour pair. */
  lemma BordersAreNeighbours(b: (Region, Region))
    requires b in Borders
    ensures b.1 in NeighborsOf(AustraliaProblem(), b.0)
  {
  }

  lemma AustraliaWellFormed()
    ensures WellFormed(AustraliaProblem())
  {
    var p := AustraliaProblem();
    forall v, n | v in p.variables && n in NeighborsOf(p, v) ensures n in p.variables {
      assert n in Regions by {
        match n
        case WA => assert Regions[0] == n;
        case NT => assert Regions[1] == n;
        case SA => assert Regions[2] == n;
        case Q => assert Regions[3] == n;
        case NSW => assert Regions[4] == n;
        case V => assert Regions[5] == n;
        case T => assert Regions[6] == n;
      }
    }
  }

  lemma EveryRegionListed(r: Region)
    ensures r in Regions
  {
    match r
    case WA => assert Regions[0] == r;
    case NT => assert Regions[1] == r;
    case SA => assert Regions[2] == r;
    case Q => assert Regions[3] == r;
    case NSW => assert Regions[4] == r;
    case V => assert Regions[5] == r;
    case T => assert Regions[6] == r;
  }

  lemma EveryColourListed(c: Colour)
    ensures c in Palette
  {
    match c
    case Red => assert Palette[0] == c;
    case Green => assert Palette[1] == c;
    case Blue => assert Palette[2] == c;
    case Yellow => assert Palette[3] == c;
  }

  /** A solution the engine accepts colours the map properly. */
  lemma SolutionColoursProperly(s: map<Region, Colour>)
    requires IsSolution(AustraliaProblem(), s)
    ensures ProperColouring(s)
  {
    forall r: Region ensures r in s {
      EveryRegionListed(r);
    }
    forall b | b in Borders ensures s[b.0] != s[b.1] {
      BordersAreNeighbours(b);
      EveryRegionListed(b.0);
      EveryRegionListed(b.1);
      assert AustraliaProblem().constraints(b.0, s[b.0], b.1, s[b.1]);
    }
  }

  /** A proper colouring of the map is a solution the engine accepts. */
  lemma ProperColouringSolves(s: map<Region, Colour>)
    requires ProperColouring(s)
    ensures IsSolution(AustraliaProblem(), s)
  {
    var p := AustraliaProblem();
    forall v | v in s ensures v in p.variables && v in p.domains && s[v] in p.domains[v] {
      EveryRegionListed(v);
      EveryColourListed(s[v]);
    }
    forall v, n | v in s && n in NeighborsOf(p, v) && n in s && n != v
      ensures p.constraints(v, s[v], n, s[n])
    {
      NeighboursAreBorders(v, n);
    }
  }

  /** The engine's notion of a solution of this instance is exactly a proper
      colouring of the map. */
  lemma SolutionIsProperColouring(s: map<Region, Colour>)
    ensures IsSolution(AustraliaProblem(), s) <==> ProperColouring(s)
  {
    if IsSolution(AustraliaProblem(), s) {
      SolutionColoursProperly(s);
    }
    if ProperColouring(s) {
      ProperColouringSolves(s);
    }
  }

  /** One proper colouring of the map. */
  const Sample: map<Region, Colour> := map[WA := Red, NT := Green, SA := Blue, Q := Red, NSW := Yellow, V := Red, T := Red]

  /** The instance has a solution. */
  lemma AustraliaColourable()
    ensures IsSolution(AustraliaProblem(), Sample)
  {
    var s := Sample;
    assert ProperColouring(s) by {
      forall r: Region ensures r in s {
        match r
        case WA =>
        case NT =>
        case SA =>
        case Q =>
        case NSW =>
        case V =>
        case T =>
      }
    }
    ProperColouringSolves(s);
  }

  /** main.py's run: build the engine over the instance and solve it. The search is
      complete and the instance is colourable, so it returns a proper colouring, and
      the step count is the seven assignments kept plus two for every one undone. */
  method SolveAustralia() returns (solution: Option<map<Region, Colour>>, steps: nat, ghost undone: nat)
    ensures solution.Some? && ProperColouring(solution.value)
    ensures steps == 7 + 2 * undone
  {
    var csp := new CSP(Regions, Colours, Neighbours, DifferentColours);
    assert csp.P() == AustraliaProblem();
    AustraliaWellFormed();
    solution, undone := csp.Solve();
    AustraliaColourable();
    assert solution.Some?;
    SolutionColoursProperly(solution.value);
    steps := csp.numSteps;
    CompleteByCount(Regions, solution.value);
  }
}
