/** Translation of a hash-join plan state coming from the host query planner
    into an executable plan tree. The expression, projection, schema and
    child-plan translations it calls are outside this model: their results
    arrive already translated in the input state. What is modelled is the
    decision logic: rejecting unsupported join types, combining the join
    filter with the plan filter, and choosing between a projection-rooted
    and a join-rooted tree. */
module HashJoinMapper {
  import opened Common

  /** Join types after translation; `JoinInvalid` marks one not supported. */
  datatype JoinType = JoinInvalid | JoinInner | JoinLeft | JoinRight | JoinOuter | JoinSemi

  /** A translated boolean expression: an atom the model does not look
      into, or an AND of two expressions. */
  datatype Expr = Atom(id: nat) | And(left: Expr, right: Expr)

  /** Translated projection info; only whether it is non-trivial matters to
      the plan shape. */
  datatype ProjectInfo = ProjectInfo(id: nat, nonTrivial: bool)

  datatype Plan =
    | HashJoinPlan(joinPredicate: Option<Expr>, projectInfo: Option<ProjectInfo>,
                   outerHashKeys: seq<nat>, children: seq<Plan>)
    | ProjectionPlan(info: ProjectInfo, schema: nat, children: seq<Plan>)
    | OtherPlan(id: nat)  // a child plan produced by the generic translation

  /** The host planner's hash-join state, with every sub-translation already
      applied: the join type, the join filter and plan filter (absent when
      the host has none), the projection built from the target list, the
      outer hash-key column ids, the output schema, and the translated outer
      and inner child plans. */
  datatype HashJoinState = HashJoinState(
    joinType: JoinType,
    joinFilter: Option<Expr>,
    planFilter: Option<Expr>,
    projectInfo: ProjectInfo,
    outerHashKeys: seq<nat>,
    projectSchema: nat,
    outer: Plan,
    inner: Plan)

  /** The join predicate: AND(join filter, plan filter) when both exist,
      otherwise whichever exists, otherwise none. */
  function CombinePredicates(joinFilter: Option<Expr>, planFilter: Option<Expr>): (p: Option<Expr>)
    ensures p.None? <==> joinFilter.None? && planFilter.None?
  {
    if joinFilter.Some? && planFilter.Some? then Some(And(joinFilter.value, planFilter.value))
    else if joinFilter.Some? then joinFilter
    else planFilter
  }

  /** Build the plan tree for a hash join, or nothing for an unsupported
      join type. */
  function TransformHashJoin(state: HashJoinState): (r: Option<Plan>)
    ensures r.None? <==> state.joinType == JoinInvalid
    ensures r.Some? ==> (r.value.ProjectionPlan? <==> state.projectInfo.nonTrivial)
  {
    if state.joinType == JoinInvalid then None
    else
      var joinPredicate := CombinePredicates(state.joinFilter, state.planFilter);
      var children := [state.outer, state.inner];
      if state.projectInfo.nonTrivial then
        var join := HashJoinPlan(joinPredicate, None, state.outerHashKeys, children);
        Some(ProjectionPlan(state.projectInfo, state.projectSchema, [join]))
      else
        Some(HashJoinPlan(joinPredicate, Some(state.projectInfo), state.outerHashKeys, children))
  }

  //===------------------------------------------------------------------===//
  // Meaning of predicates
  //===------------------------------------------------------------------===//

  /** Truth of an expression on a row, given the truth of every atom. */
  function Eval(e: Expr, atoms: nat -> bool): bool {
    match e
    case Atom(id) => atoms(id)
    case And(l, r) => Eval(l, atoms) && Eval(r, atoms)
  }

  /** A join with no predicate accepts every pair of rows. */
  function Accepts(p: Option<Expr>, atoms: nat -> bool): bool {
    match p
    case None => true
    case Some(e) => Eval(e, atoms)
  }

  /** The combined predicate accepts a row pair exactly when both filters
      do, an absent filter accepting everything. */
  lemma CombinePredicatesMeaning(joinFilter: Option<Expr>, planFilter: Option<Expr>, atoms: nat -> bool)
    ensures Accepts(CombinePredicates(joinFilter, planFilter), atoms)
            == (Accepts(joinFilter, atoms) && Accepts(planFilter, atoms))
  {
  }

  /** The combination keeps the filters in order: join filter first. */
  lemma CombinePredicatesShape(joinFilter: Option<Expr>, planFilter: Option<Expr>)
    ensures joinFilter.Some? && planFilter.Some? ==>
              CombinePredicates(joinFilter, planFilter) == Some(And(joinFilter.value, planFilter.value))
    ensures joinFilter.Some? && planFilter.None? ==> CombinePredicates(joinFilter, planFilter) == joinFilter
    ensures joinFilter.None? ==> CombinePredicates(joinFilter, planFilter) == planFilter
  {
  }

  //===------------------------------------------------------------------===//
  // Shape of the plan tree
  //===------------------------------------------------------------------===//

  /** The hash-join node of a translated tree: the root, or the single child
      of a projection root. */
  function JoinNode(p: Plan): Option<Plan> {
    match p
    case HashJoinPlan(_, _, _, _) => Some(p)
    case ProjectionPlan(_, _, children) =>
      if |children| == 1 && children[0].HashJoinPlan? then Some(children[0]) else None
    case OtherPlan(_) => None
  }

  /** Whatever the projection, the tree has exactly one hash-join node; it
      carries the combined predicate and the outer hash keys, and has two
      children: the outer plan first, the inner plan second. */
  lemma JoinNodeInvariant(state: HashJoinState)
    requires state.joinType != JoinInvalid
    ensures var r := TransformHashJoin(state);
            && r.Some? && JoinNode(r.value).Some?
            && var join := JoinNode(r.value).value;
               && join.HashJoinPlan?
               && join.joinPredicate == CombinePredicates(state.joinFilter, state.planFilter)
               && join.outerHashKeys == state.outerHashKeys
               && join.children == [state.outer, state.inner]
  {
  }

  /** A non-trivial projection puts a projection plan at the root, with the
      projection and output schema, over a hash join that has no
      projection of its own; a trivial one makes the hash join the root and
      hands it the projection. */
  lemma ProjectionPlacement(state: HashJoinState)
    requires state.joinType != JoinInvalid
    ensures var r := TransformHashJoin(state).value;
            var join := JoinNode(r).value;
            if state.projectInfo.nonTrivial then
              && r == ProjectionPlan(state.projectInfo, state.projectSchema, [join])
              && join.projectInfo == None
            else
              && r == join
              && join.projectInfo == Some(state.projectInfo)
  {
  }

  /** Every atom of the chosen predicate comes from one of the two filters,
      and every atom of either filter is in it: nothing is lost or invented. */
  lemma CombinePredicatesAtoms(joinFilter: Option<Expr>, planFilter: Option<Expr>)
    ensures AtomsOf(CombinePredicates(joinFilter, planFilter)) == AtomsOf(joinFilter) + AtomsOf(planFilter)
  {
  }

  /** The atoms an expression mentions. */
  function Atoms(e: Expr): set<nat> {
    match e
    case Atom(id) => {id}
    case And(l, r) => Atoms(l) + Atoms(r)
  }

  function AtomsOf(p: Option<Expr>): set<nat> {
    match p
    case None => {}
    case Some(e) => Atoms(e)
  }
}
