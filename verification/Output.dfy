/** The sanitized payload: what is left of a tree once keys are assigned to maps. */
module Output {
  import opened Keys
  import opened Configurations
  import opened Payload
  import opened Budget

  /** `omitted` stands for the `_omitted_items` entry, absent when it is 0. */
  datatype Out =
    | Scalar(leaf: Leaf)
    | Data(fields: map<string, Out>, omitted: nat)
    | Items(items: seq<Out>, omitted: nat)

  function Emit(configuration: Configuration, tree: Tree): Out {
    match tree
    case Atom(leaf) => Scalar(leaf)
    case Branch(Object, kids, omitted) => Data(Assigned(configuration, kids), omitted)
    case Branch(List, kids, omitted) => Items(Emitted(configuration, kids), omitted)
  }

  function NameOf(place: Place): string {
    match place
    case Key(name) => name
    case Index(_) => ""
  }

  /** `assign`, kid by kid: a later key overwrites an equal earlier one. */
  function Assigned(configuration: Configuration, kids: seq<Kid>): map<string, Out> {
    if kids == [] then map[]
    else
      var kid := Last(kids);
      Assigned(configuration, kids[..|kids| - 1])
        [AssignedKey(configuration.digest, configuration.maxKeyBytes, NameOf(kid.place)) := Emit(configuration, kid.tree)]
  }

  function Emitted(configuration: Configuration, kids: seq<Kid>): seq<Out> {
    if kids == [] then []
    else
      var kid := Last(kids);
      Emitted(configuration, kids[..|kids| - 1]) + [Emit(configuration, kid.tree)]
  }
}
