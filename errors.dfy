/** The failures the coordinator reports to its caller. */
module Errors {

  datatype Error =
    | NoPath                     // "You need to supply a Path!"
    | NoToken                    // "No token was provided!"
    | UpstreamResponse(status: nat)  // the raw non-ok HTTP response is thrown
    | NoSuchCluster(id: int)     // "No Cluster with that ID found."
}
