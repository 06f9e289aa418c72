/** The two catalogues the planning tools read: requirements, and the platform workflows that claim them. */
module Registry {
  import opened Orders

  datatype Option<+T> = None | Some(value: T)

  /** What a stage text parses as; the text itself is kept for free-text stages. */
  datatype StageKind = Integer(n: int) | Decimal(r: real) | FStage(f: nat) | FreeText
  datatype Stage = Stage(text: string, kind: StageKind)

  /** The `type` key of an entry: "requirement" or no such key, or anything else, such as "interpretation-rule". */
  datatype EntryType = RequirementEntry | OtherEntry(text: string)

  /** `extendsRefs` and `seeRefs` are the ids on the Extends and See lines of the body, `extendsFirst` the first
      token after Extends. A `priority` of None means the key is absent. */
  datatype Requirement = Requirement(
    kind: EntryType,
    status: string,
    priority: Option<string>,
    stage: Stage,
    workflow: string,
    extendsRefs: set<Id>,
    extendsFirst: Option<Id>,
    seeRefs: set<Id>)

  /** The register as the file holds it, or the part of it that the scheduler loads. */
  type Requirements = map<Id, Requirement>

  datatype Workflow = Workflow(
    requirements: seq<Id>,
    dependsOn: seq<Id>,
    status: string,
    uatStatus: string,
    scenarios: seq<string>)

  /** A dictionary of workflows with its iteration order. */
  datatype Catalogue = Catalogue(order: seq<Id>, byId: map<Id, Workflow>)
  {
    ghost predicate Valid()
    {
      (forall w :: w in order <==> w in byId) &&
      forall i, j | 0 <= i < j < |order| :: order[i] != order[j]
    }
  }

  function PriorityRank(priority: string): int
  {
    if priority == "MUST" then 0 else if priority == "SHOULD" then 1 else if priority == "COULD" then 2 else 3
  }
}
