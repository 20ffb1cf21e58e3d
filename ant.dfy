/** The ant profiles a colony is built from. */
module AntTypes {

  datatype AntType = Explorer | Memory | Sprinter | Patient | Elite | Allrounder

  /** An ant profile. Only the fields the simulation reads are kept: the
      token id, the type (which fixes the speed) and the exploration ratio. */
  datatype Ant = Ant(tokenId: int, kind: AntType, exploreRatio: real)

  /** The group of ants sent into a maze; the aggregate statistics of the
      group are never read by the simulation. */
  datatype AntGroup = AntGroup(ants: seq<Ant>)
}
