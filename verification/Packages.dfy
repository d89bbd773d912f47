/** Workspace packages and the peer-dependency graph between them. */
module Packages {
  import opened Digraphs

  /** One harness package and its in-repo peer-dependency edges. */
  datatype Package = Package(short: string, name: string, group: string, rel: string, deps: seq<string>)

  /** Packages keyed by short name, as the traversal's maps hold them. */
  type PackageMap = map<string, Package>

  ghost predicate KeyedByName(packages: PackageMap) {
    forall k :: k in packages ==> packages[k].short == k
  }

  /** Edges from each package to those of its dependencies that are in the map. */
  ghost function DependencyGraph(packages: PackageMap): Digraph<string> {
    map k | k in packages :: set d | d in packages[k].deps && d in packages
  }

  lemma DependencyEdge(packages: PackageMap)
    ensures Mirrors(DependencyGraph(packages), packages)
  {
  }

  /** `g` has the packages as nodes and exactly their in-map dependencies as edges. */
  ghost predicate Mirrors(g: Digraph<string>, packages: PackageMap) {
    && g.Keys == packages.Keys
    && forall u, v :: Edge(g, u, v) <==> u in packages && v in packages && v in packages[u].deps
  }
}
