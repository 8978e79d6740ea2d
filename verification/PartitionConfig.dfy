/**
 Per-project include lists of a partition's temporary configuration, and the bounded
 output tail of its process.
 */
module PartitionConfig {
  import opened Partitions
  import opened Sorting

  const PROCESS_BOUND := "process-bound"
  const OUTPUT_TAIL_LIMIT: nat := 65536

  type Projects = map<string, string>

  predicate IsProcessBound(file: string, projectOf: Projects) {
    file in projectOf && projectOf[file] == PROCESS_BOUND
  }

  // Backslashes become slashes.
  function Portable(file: string): (r: string)
    ensures |r| == |file| && '\\' !in r
    ensures forall k :: 0 <= k < |file| ==> if file[k] == '\\' then r[k] == '/' else r[k] == file[k]
  {
    Map(c => if c == '\\' then '/' else c, file)
  }

  function Select(files: seq<string>, projectOf: Projects, bound: bool): seq<string> {
    if files == [] then []
    else
      var file := files[|files| - 1];
      Select(files[..|files| - 1], projectOf, bound) + if IsProcessBound(file, projectOf) == bound then [file] else []
  }

  // Files a project runs in one partition; the thread-safe list goes to every other project.
  function Include(files: seq<string>, projectOf: Projects, project: string): seq<string> {
    Map(Portable, Select(files, projectOf, project == PROCESS_BOUND))
  }

  function IncludeAll(parts: seq<seq<string>>, projectOf: Projects, project: string): seq<string> {
    if parts == [] then []
    else IncludeAll(parts[..|parts| - 1], projectOf, project) + Include(parts[|parts| - 1], projectOf, project)
  }

  lemma {:induction false} SelectSplits(files: seq<string>, projectOf: Projects)
    ensures multiset(Select(files, projectOf, true)) + multiset(Select(files, projectOf, false)) == multiset(files)
  {
    hide Select, IsProcessBound;
    if files == [] {
      NoneSelected(projectOf);
    } else {
      var init, last := files[..|files| - 1], files[|files| - 1];
      SelectSplits(init, projectOf);
      LastSelected(files, projectOf, true);
      LastSelected(files, projectOf, false);
      assert files == init + [last];
    }
  }

  lemma NoneSelected(projectOf: Projects)
    ensures Select([], projectOf, true) == [] && Select([], projectOf, false) == []
  {
  }

  lemma LastSelected(files: seq<string>, projectOf: Projects, bound: bool)
    requires files != []
    ensures var last := files[|files| - 1];
            multiset(Select(files, projectOf, bound))
            == multiset(Select(files[..|files| - 1], projectOf, bound))
               + if IsProcessBound(last, projectOf) == bound then multiset{last} else multiset{}
  {
  }

  lemma MapConcat(a: seq<string>, b: seq<string>)
    ensures Map(Portable, a + b) == Map(Portable, a) + Map(Portable, b)
  {
  }

  lemma IncludesSplitPartition(files: seq<string>, projectOf: Projects, project: string)
    requires project != PROCESS_BOUND
    ensures multiset(Include(files, projectOf, PROCESS_BOUND)) + multiset(Include(files, projectOf, project))
            == multiset(Map(Portable, files))
  {
    var bound, rest := Select(files, projectOf, true), Select(files, projectOf, false);
    SelectSplits(files, projectOf);
    MapMultiset(Portable, bound + rest, files);
    MapConcat(bound, rest);
  }

  // A project is given exactly the files that belong to it.
  lemma {:induction false} IncludeRespectsProject(
    files: seq<string>, projectOf: Projects, project: string, path: string)
    ensures path in Include(files, projectOf, project) <==>
            exists file :: file in files && Portable(file) == path
                           && (project == "process-bound"
                               <==> file in projectOf && projectOf[file] == "process-bound")
  {
    if files != [] {
      var init, last := files[..|files| - 1], files[|files| - 1];
      IncludeRespectsProject(init, projectOf, project, path);
      MapConcat(Select(init, projectOf, project == PROCESS_BOUND), [last]);
      assert files == init + [last];
      assert Map(Portable, [last]) == [Portable(last)];
      var selected := Select(init, projectOf, project == PROCESS_BOUND);
      assert selected + [] == selected;
    }
  }

  // Flattened partitions: the files in partition order.
  function Flatten(parts: seq<seq<string>>): seq<string> {
    if parts == [] then [] else Flatten(parts[..|parts| - 1]) + parts[|parts| - 1]
  }

  lemma {:induction false} FlattenHoldsAllFiles(parts: seq<seq<string>>)
    ensures multiset(Flatten(parts)) == AllFiles(parts)
  {
    if parts != [] {
      FlattenHoldsAllFiles(parts[..|parts| - 1]);
    }
  }

  lemma {:induction false} IncludesSplitFlattened(parts: seq<seq<string>>, projectOf: Projects, project: string)
    requires project != PROCESS_BOUND
    ensures multiset(IncludeAll(parts, projectOf, PROCESS_BOUND)) + multiset(IncludeAll(parts, projectOf, project))
            == multiset(Map(Portable, Flatten(parts)))
  {
    if parts != [] {
      var init, last := parts[..|parts| - 1], parts[|parts| - 1];
      IncludesSplitFlattened(init, projectOf, project);
      IncludesSplitPartition(last, projectOf, project);
      MapConcat(Flatten(init), last);
    }
  }

  // Every inventory file is run by exactly one partition in exactly one of the two projects.
  lemma IncludesConserveInventory(files: seq<string>, parts: seq<seq<string>>, projectOf: Projects, project: string)
    requires project != PROCESS_BOUND && AllFiles(parts) == multiset(files)
    ensures multiset(IncludeAll(parts, projectOf, PROCESS_BOUND)) + multiset(IncludeAll(parts, projectOf, project))
            == multiset(Map(Portable, files))
  {
    FlattenHoldsAllFiles(parts);
    MapMultiset(Portable, Flatten(parts), files);
    IncludesSplitFlattened(parts, projectOf, project);
  }

  function AppendOutputTail(previous: string, chunk: string): string {
    var combined := previous + chunk;
    if |combined| <= OUTPUT_TAIL_LIMIT then combined else combined[|combined| - OUTPUT_TAIL_LIMIT..]
  }

  function TailAfter(chunks: seq<string>): string {
    if chunks == [] then "" else AppendOutputTail(TailAfter(chunks[..|chunks| - 1]), chunks[|chunks| - 1])
  }

  function Output(chunks: seq<string>): string {
    if chunks == [] then "" else Output(chunks[..|chunks| - 1]) + chunks[|chunks| - 1]
  }

  // However the output is cut into chunks, the tail is the end of the whole output.
  lemma {:induction false} TailIsEndOfOutput(chunks: seq<string>)
    ensures var all := Output(chunks);
            TailAfter(chunks) == if |all| <= 65536 then all else all[|all| - 65536..]
  {
    if chunks != [] {
      TailIsEndOfOutput(chunks[..|chunks| - 1]);
      var before, chunk := Output(chunks[..|chunks| - 1]), chunks[|chunks| - 1];
      var tail := TailAfter(chunks[..|chunks| - 1]);
      assert before == before[..|before| - |tail|] + tail;
      assert Output(chunks) == before[..|before| - |tail|] + (tail + chunk);
    }
  }
}
