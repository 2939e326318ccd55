/** EBNF productions, and what the analyser reads off one production's definition. */
module EbnfGrammar {

  datatype Node =
    | Reference(name: string)
    | Terminal(value: string)
    | Special(value: string)
    | Group(child: Node)
    | Optional(child: Node)
    | Repetition(child: Node)
    | Alternative(children: seq<Node>)
    | Sequence(children: seq<Node>)

  type Grammar = map<string, Node>

  function References(node: Node): set<string> {
    match node
    case Reference(name) => {name}
    case Terminal(_) => {}
    case Special(_) => {}
    case Group(child) => References(child)
    case Optional(child) => References(child)
    case Repetition(child) => References(child)
    case Alternative(children) => set i, r | 0 <= i < |children| && r in References(children[i]) :: r
    case Sequence(children) => set i, r | 0 <= i < |children| && r in References(children[i]) :: r
  }

  predicate IsNullable(node: Node, nullable: set<string>) {
    match node
    case Reference(name) => name in nullable
    case Terminal(_) => false
    case Special(_) => false
    case Group(child) => IsNullable(child, nullable)
    case Optional(_) => true
    case Repetition(_) => true
    case Alternative(children) => exists i | 0 <= i < |children| :: IsNullable(children[i], nullable)
    case Sequence(children) => forall i | 0 <= i < |children| :: IsNullable(children[i], nullable)
  }

  predicate IsProductive(node: Node, productive: set<string>) {
    match node
    case Reference(name) => name in productive
    case Terminal(_) => true
    case Special(_) => true
    case Group(child) => IsProductive(child, productive)
    case Optional(_) => true
    case Repetition(_) => true
    case Alternative(children) => exists i | 0 <= i < |children| :: IsProductive(children[i], productive)
    case Sequence(children) => forall i | 0 <= i < |children| :: IsProductive(children[i], productive)
  }

  /** The references that can stand first in what a definition yields. */
  function LeadingReferences(node: Node, nullable: set<string>): set<string>
    decreases node, 1
  {
    match node
    case Reference(name) => {name}
    case Terminal(_) => {}
    case Special(_) => {}
    case Group(child) => LeadingReferences(child, nullable)
    case Optional(child) => LeadingReferences(child, nullable)
    case Repetition(child) => LeadingReferences(child, nullable)
    case Alternative(children) => set i, r | 0 <= i < |children| && r in LeadingReferences(children[i], nullable) :: r
    case Sequence(children) => LeadingOfSequence(children, nullable)
  }

  function LeadingOfSequence(children: seq<Node>, nullable: set<string>): set<string>
    decreases children, 0
  {
    if children == [] then {}
    else
      LeadingReferences(children[0], nullable)
      + if IsNullable(children[0], nullable) then LeadingOfSequence(children[1..], nullable) else {}
  }

  /** Every alternative and sequence has at least two parts, as the parser builds them. */
  predicate IsNormal(node: Node) {
    match node
    case Reference(_) => true
    case Terminal(_) => true
    case Special(_) => true
    case Group(child) => IsNormal(child)
    case Optional(child) => IsNormal(child)
    case Repetition(child) => IsNormal(child)
    case Alternative(children) =>
      |children| >= 2 && forall i | 0 <= i < |children| :: IsNormal(children[i]) && !children[i].Alternative?
    case Sequence(children) =>
      |children| >= 2 && forall i | 0 <= i < |children| ::
        IsNormal(children[i]) && !children[i].Alternative? && !children[i].Sequence?
  }
}
