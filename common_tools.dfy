/**
 * The data-path helpers of plugin/commontools.cpp. The generic data
 * locations (most local first) and the file-existence test are inputs.
 */
module CommonTools {
  import opened QtStrings

  /** The k-th base path in search order: as listed when `localfirst`, from the end otherwise. */
  function Ordered(paths: seq<string>, localfirst: bool, k: nat): string
    requires k < |paths|
  {
    if localfirst then paths[k] else paths[|paths| - 1 - k]
  }

  /** standardPaths: the generic data locations in search order. */
  method StandardPaths(paths: seq<string>, localfirst: bool) returns (r: seq<string>)
    ensures localfirst ==> r == paths
    ensures |r| == |paths|
    ensures forall k :: 0 <= k < |r| ==> r[k] == Ordered(paths, localfirst, k)
  {
    if localfirst {
      return paths;
    }
    var reversed: seq<string> := [];
    var i := |paths| - 1;
    while i >= 0
      invariant -1 <= i < |paths|
      invariant |reversed| == |paths| - 1 - i
      invariant forall k :: 0 <= k < |reversed| ==> reversed[k] == paths[|paths| - 1 - k]
    {
      reversed := reversed + [paths[i]];
      i := i - 1;
    }
    return reversed;
  }

  /** The separator standardPathsFor puts between a base path and `subPath`. */
  function Separator(subPath: string): string
  {
    if StartsWith(subPath, "/") then "" else "/"
  }

  /** standardPathsFor: each location in search order joined with `subPath`. */
  method StandardPathsFor(subPath: string, localfirst: bool, locations: seq<string>) returns (paths: seq<string>)
    ensures |paths| == |locations|
    ensures forall k :: 0 <= k < |paths| ==> paths[k] == Ordered(locations, localfirst, k) + Separator(subPath) + subPath
  {
    paths := StandardPaths(locations, localfirst);
    var separator := if StartsWith(subPath, "/") then "" else "/";
    var i := 0;
    while i < |paths|
      invariant 0 <= i <= |paths| && |paths| == |locations|
      invariant forall k :: 0 <= k < i ==> paths[k] == Ordered(locations, localfirst, k) + separator + subPath
      invariant forall k :: i <= k < |paths| ==> paths[k] == Ordered(locations, localfirst, k)
    {
      paths := paths[i := paths[i] + separator + subPath];
      i := i + 1;
    }
  }

  /** The k-th file standardPath tries: always joined with "/". */
  function Candidate(locations: seq<string>, localfirst: bool, subPath: string, k: nat): string
    requires k < |locations|
  {
    Ordered(locations, localfirst, k) + "/" + subPath
  }

  /** The fallback location tried when no data location holds the file. */
  function Fallback(subPath: string): string
  {
    "/usr/share/" + subPath
  }

  /**
   * standardPath: the first existing candidate in search order; failing
   * that the fallback if it exists; "" otherwise.
   */
  method StandardPath(subPath: string, localfirst: bool, locations: seq<string>, fileExists: string -> bool)
    returns (path: string)
    ensures (exists k :: 0 <= k < |locations| && fileExists(Candidate(locations, localfirst, subPath, k))) ==>
      exists k :: 0 <= k < |locations| && fileExists(Candidate(locations, localfirst, subPath, k))
        && path == Candidate(locations, localfirst, subPath, k)
        && forall j :: 0 <= j < k ==> !fileExists(Candidate(locations, localfirst, subPath, j))
    ensures (forall k :: 0 <= k < |locations| ==> !fileExists(Candidate(locations, localfirst, subPath, k))) ==>
      path == (if fileExists(Fallback(subPath)) then Fallback(subPath) else "")
  {
    var n := |locations|;
    if localfirst {
      var i := 0;
      while i < n
        invariant 0 <= i <= n
        invariant forall j :: 0 <= j < i ==> !fileExists(Candidate(locations, localfirst, subPath, j))
      {
        var ptF := locations[i] + "/" + subPath;
        if fileExists(ptF) {
          assert ptF == Candidate(locations, localfirst, subPath, i);
          return ptF;
        }
        i := i + 1;
      }
    } else {
      var i := n - 1;
      while i >= 0
        invariant -1 <= i < n
        invariant forall j :: 0 <= j < n - 1 - i ==> !fileExists(Candidate(locations, localfirst, subPath, j))
      {
        var ptF := locations[i] + "/" + subPath;
        if fileExists(ptF) {
          assert ptF == Candidate(locations, localfirst, subPath, n - 1 - i);
          return ptF;
        }
        i := i - 1;
      }
    }
    if fileExists("/usr/share/" + subPath) {
      return "/usr/share/" + subPath;
    }
    return "";
  }
}
