/**
 * The flat model handed to the loader by the URDF parser: links and joints
 * keyed by name, each joint naming its parent and its child link, and a
 * designated root link. The parser itself is outside this model; its output
 * is given as a value. The two sequences hold the entries of the parser's
 * `links_` and `joints_` maps in the maps' iteration order (ascending key).
 */
module Urdf {
  /** A link record; only its name matters to the assembly. */
  datatype Link = Link(name: string)

  /** A joint record: its name and the names of the links it connects. */
  datatype UrdfJoint = UrdfJoint(name: string, parentLinkName: string, childLinkName: string)

  /** The parsed model: `getName()`, `links_`, `joints_` and `getRoot()`. */
  datatype ModelInterface = ModelInterface(
    name: string,
    links: seq<Link>,
    joints: seq<UrdfJoint>,
    root: Link)

  /** The parsed world: the object models and the robot models it places. */
  datatype UrdfWorld = UrdfWorld(objectModels: seq<ModelInterface>, robotModels: seq<ModelInterface>)
}
