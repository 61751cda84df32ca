# memcached-on-linux experiment tooling, modelled in Dafny

This project models the data-handling core of the experiment scripts in
memcached-on-linux. It covers three scripts:

- **parse_memtier_results.py**, the memtier aggregator. It reads each client's log
  for operation and miss totals, reads the `*_FULL_RUN.txt` percentile files, and
  turns HdrHistogram text exports into frequency tables by differencing their
  cumulative counts. It merges those tables across the client logs of one `qps_*`
  directory and reads the reported percentiles from the merge as count-weighted
  order statistics, falling back to the per-file FULL_RUN maxima. It also selects
  the data window and columns of a `powerstat` report.
- **data-intel.py**, the mutilate aggregator.
  - It parses a mutilate master log: the `read` latency line and the
    `Total QPS = …` line.
  - It derives the path of the raw-sample `.lat` file and reads its samples.
  - It reads the powerstat report.
  - It walks run directories, extracts each rate from a file name, dedupes and
    sorts the rates, collects one row per rate, and finally sorts the rows by rate.
- **redis_runner.py**, the sharded Redis orchestrator. The model covers its
  arithmetic and placement decisions:
  - the per-shard and per-connection rate limits (two ceiling divisions);
  - the port, client host, core slice and key prefix of each shard;
  - the per-shard key range;
  - the workload profile and the memtier flags derived from it.

Loops that update variables line by line or file by file are `method`s. Each is
proved equal to a specification function, and the properties are proved about
those functions as lemmas. The list comprehensions and integer expressions are
functions.

Several things outside the program become parameters:

- Number conversion: Python's `float(tok)` and `int(tok)` are the functions
  `num: string -> Option<real>` and `toInt: string -> Option<int>`, where `None`
  stands for ValueError.
- The file system: a function from path to the file's lines, or `None` when the
  file does not exist.
- The floating-point statistics: numpy's mean and percentiles, and pandas' mean
  and standard deviation.

Frequency tables are `map<real, int>`.

Files:

| file | module | contents |
|---|---|---|
| wrappers.dfy | Wrappers | `Option`, `Result`, the two Python exceptions the scripts catch |
| text.dfy | Text | `str.split()`, `re.split(r'\s+')`, `split(c)`, `strip`, `startswith`, `in`, `replace`, decimal strings |
| numbers.dfy | Numbers | `math.ceil`, `int()` of a float |
| sorting.dfy | Sorting | `sorted(set(...))` for reals and ints |
| tables.dfy | Tables | frequency tables, their totals, cumulative counts and the value-wise merge |
| hdr.dfy | HdrHistogram | `parse_hdr_txt` |
| quantiles.dfy | Quantiles | `quantile_from_counts` |
| memtier.dfy | MemtierResults | `parse_log_ops`, `parse_full_run`, the per-directory accumulation of `main` |
| powerstat.dfy | Powerstat | the powerstat data window, its column projection and the memtier aggregator's samples |
| filenames.dfy | FileNames | `os.path.splitext`, the `.lat` path, rates from file names, the machine name |
| dataintel.dfy | DataIntel | `parse_mutilate_file`, `parse_powerstat_file`, `collect_logs_from_directory`, the final sort |
| redis_runner.dfy | RedisRunner | rate split, shard placement, `profile_params` and the data-size and zipf flags |

## Model

| member | source | states |
|---|---|---|
| Numbers.Ceil | parse_memtier_results.py:94 | `math.ceil`: the least integer not below x |
| Numbers.Trunc | parse_memtier_results.py:75 | `int(float(...))` truncates toward zero, for both signs |
| Sorting.SortedReals | parse_memtier_results.py:90 | the keys of a table in strictly increasing order, each key exactly once |
| Sorting.SortedInts | data-intel.py:109-110 | `sorted(set(rates))`: strictly increasing, the same elements, no duplicates |
| Text.Strip | data-intel.py:42 | no leading or trailing whitespace; empty exactly when the line is all whitespace |
| Text.StripSlice | data-intel.py:42 | `strip()` keeps the slice of the line that starts after its leading whitespace, and only whitespace follows that slice |
| Text.ReSplit | data-intel.py:23 | `re.split(r'\s+')`: at least one part, and the first is the text before the first whitespace |
| Text.ReSplitNoSpace | data-intel.py:23 | no part of `re.split(r'\s+')` holds whitespace |
| Text.GapsCount | data-intel.py:23 | between any two parts there is exactly one whitespace run |
| Text.GapsSpaces | data-intel.py:23 | every run between two parts is nonempty and all whitespace |
| Text.ReSplitWeave | data-intel.py:23 | putting the runs back between the parts gives the line back, so the parts and runs are a decomposition of the line |
| Text.SplitCharSingle | data-intel.py:104 | `split(c)` gives a single part exactly when `c` does not occur |
| Text.SplitCharParts | data-intel.py:104 | no part of `split(c)` holds `c` |
| Text.WordsOfUnwords | parse_memtier_results.py:65 | `split()` recovers the words of a text built from whitespace-free words |
| Text.SplitJoin | data-intel.py:104 | splitting at `c` recovers the parts that were joined with `c` |
| Text.JoinSplit | data-intel.py:136 | joining the parts of `split(c)` with `c` gives back the text |
| Text.LastByIsLast | data-intel.py:21-34 | a variable overwritten whenever a line yields a value ends with the value of the last such line, or none |
| Tables.AddCount | parse_memtier_results.py:81 | `counts[v] += d` changes only the count of `v` |
| Tables.Merge | parse_memtier_results.py:181-182 | the merged table counts each value as the sum of both tables' counts |
| Tables.MergeCommutes | parse_memtier_results.py:179-182 | merging two tables does not depend on their order |
| Tables.MergeAssociates | parse_memtier_results.py:179-182 | merging is associative |
| Tables.MergeAllCounts | parse_memtier_results.py:163-182 | a value's merged count is the sum of its counts over the files; a value is present iff some file has it |
| Tables.MergeAllPermutation | parse_memtier_results.py:163-182 | the merged table does not depend on the order the files are visited |
| Tables.TotalMerge | parse_memtier_results.py:181-182 | the total of a merge is the sum of the totals |
| Tables.MergeAllNonNegative | parse_memtier_results.py:181-182 | merging tables with non-negative counts keeps all counts non-negative |
| HdrHistogram.RowsFromSpec | parse_memtier_results.py:72-83 | rows are read four tokens at a time from the header on; reading stops at the first incomplete or unparsable group |
| HdrHistogram.RowAt | parse_memtier_results.py:73-81 | row k read from index i is the group at i+4k: tokens up to i+4k+3 exist, the value parses from token i+4k and the count from token i+4k+2 |
| HdrHistogram.RowsFromFields | parse_memtier_results.py:72-83 | every row read carries the value and the cumulative count of its four-token group |
| HdrHistogram.RowsFromStop | parse_memtier_results.py:72-77 | the first group after the rows read is incomplete or does not parse |
| HdrHistogram.ReadRows | parse_memtier_results.py:70-83 | the token loop yields the differenced table of the rows read and the last cumulative count |
| HdrHistogram.ReadRow | parse_memtier_results.py:73-83 | one loop step reads one row and advances the index by four |
| HdrHistogram.ParseHdr | parse_memtier_results.py:62-84 | the table is the differenced counts of the rows read, the total is the last cumulative count, and all counts are non-negative |
| HdrHistogram.NoHeaderEmpty | parse_memtier_results.py:66-69 | without a `Value` token the table is empty and the total 0 |
| HdrHistogram.TableNonNegative | parse_memtier_results.py:78-81 | a negative delta is clamped, so every count is at least 0 |
| HdrHistogram.TableKeys | parse_memtier_results.py:81 | the table's keys are exactly the values of the rows read |
| HdrHistogram.TableTotal | parse_memtier_results.py:78-84 | the counts sum to at least the last cumulative count, and exactly to it when the cumulative counts never decrease |
| Quantiles.Target | parse_memtier_results.py:94 | `ceil(q * total)` as an integer |
| Quantiles.SumCounts | parse_memtier_results.py:91 | the sum of the counts over the sorted keys is the table's total |
| Quantiles.Walk | parse_memtier_results.py:95-100 | the running-sum walk returns the first key whose cumulative count reaches the target, or the largest key |
| Quantiles.Quantile | parse_memtier_results.py:87-100 | `quantile_from_counts` returns the specified order statistic |
| Quantiles.QuantileNone | parse_memtier_results.py:88-93 | no result exactly when the table is empty or its counts sum to 0 |
| Quantiles.QuantileInTable | parse_memtier_results.py:94-100 | a result is a key of the table, between its smallest and largest key |
| Quantiles.QuantileIsLeast | parse_memtier_results.py:94-99 | for q at most 1 and non-negative counts, the result is the smallest key whose cumulative count reaches `ceil(q*total)` |
| Quantiles.QuantileMonotone | parse_memtier_results.py:94-100 | a larger q never gives a smaller quantile |
| Quantiles.TargetAtMostTotal | parse_memtier_results.py:94 | for q at most 1 the target never exceeds the total, so the walk always finds a key |
| Quantiles.QuantileOrderIndependent | parse_memtier_results.py:179-189 | the reported quantiles do not depend on the order the histogram files are merged |
| MemtierResults.NoPcts | parse_memtier_results.py:44 | `{p: None for p in PCTS}` has exactly the four percentiles, all unset |
| MemtierResults.ParseLogOps | parse_memtier_results.py:22-39 | ops is the value of the last `Totals` line with a parsable second field, misses that of the last `Misses … =` line that parses |
| MemtierResults.FullRunStep | parse_memtier_results.py:47-58 | one line updates at most the percentile it names, to the value it carries |
| MemtierResults.ParseFullRun | parse_memtier_results.py:42-59 | each of 50/90/95/99 holds the value of the last usable line naming it, or `None` |
| MemtierResults.NonZero | parse_memtier_results.py:203-207 | a sum of 0 is reported as `None`, any other sum as itself |
| MemtierResults.MaxAllIsMax | parse_memtier_results.py:173-176 | the running maximum is one of the values and bounds every value; `None` exactly when all are |
| MemtierResults.PctMaxIsMaxAll | parse_memtier_results.py:171-176 | `pct_max[p]` after the logs is the running maximum of their FULL_RUN values for p |
| MemtierResults.HdrTables | parse_memtier_results.py:178-180 | one table per histogram file |
| MemtierResults.PctMaxIsMax | parse_memtier_results.py:171-176 | `pct_max[p]` is the largest FULL_RUN value for p over the files, `None` when no file has one |
| MemtierResults.MergeInto | parse_memtier_results.py:181-182 | adding one file's counts to the running table yields their merge |
| MemtierResults.MergeHdrs | parse_memtier_results.py:178-182 | adding a client's histogram files yields the merge of their tables |
| MemtierResults.UpdatePctMax | parse_memtier_results.py:173-176 | each percentile keeps the larger of the running maximum and the file's value |
| MemtierResults.AccumulateGroup | parse_memtier_results.py:158-182 | the loop over a directory's logs yields the summed ops and misses, the merged table, and the FULL_RUN maxima |
| MemtierResults.PctReport | parse_memtier_results.py:184-193 | percentiles come from the merged table when it has any value, else from the FULL_RUN maxima scaled by 1000 |
| MemtierResults.RateLabelOfQpsDir | parse_memtier_results.py:154 | the rate of a `qps_<r>` directory is `<r>` |
| MemtierResults.AggregateGroup | parse_memtier_results.py:154-208 | no row for a directory without logs; otherwise the rate label, the totals (`None` when 0) and the reported percentiles |
| MemtierResults.GroupTablesNonNegative | parse_memtier_results.py:179-182 | every table read and the merged table have non-negative counts |
| MemtierResults.ReportStep | parse_memtier_results.py:186-189 | two percentiles p1 <= p2 read from a table with a positive total are both present and ordered |
| MemtierResults.ReportOrdered | parse_memtier_results.py:186-189 | read from a merged histogram, p50 <= p90 <= p95 <= p99 |
| MemtierResults.HdrTablesPick | parse_memtier_results.py:178-182 | merging one file last, after the others, gives the same table as merging in list order |
| MemtierResults.HdrOrderIndependent | parse_memtier_results.py:178-182 | the order in which a glob lists histogram files does not change the merge |
| Powerstat.DashFrom | parse_memtier_results.py:119 | the first index from the start whose line begins with `-`, or the number of lines |
| Powerstat.Window | parse_memtier_results.py:118-120 | the lines from index 20 up to the first later `-` line or the end; none for a short report |
| Powerstat.ColumnsAppend | parse_memtier_results.py:121-123 | the projection works line by line |
| Powerstat.ColumnSource | data-intel.py:72-74 | the pair at k comes from a line that is kept and projects to it |
| Powerstat.ColumnsSound | data-intel.py:72-74 | every pair is the 5th and 13th field of a non-blank line with more than 12 fields |
| Powerstat.ColumnsComplete | data-intel.py:72-74 | every non-blank line with more than 12 fields contributes its pair |
| Powerstat.SamplesFromLines | data-intel.py:69-81 | the paired samples have equal length, and the i-th utilisation and power are the 5th and 13th fields of one line with more than 12 fields |
| Powerstat.PairedSamplesComplete | data-intel.py:76-81 | every row whose utilisation and power both convert is kept: its two values sit at one index of the utilisation and power lists, so together with PairedSamplesAligned the pairing keeps exactly the rows that `dropna` keeps |
| Powerstat.SamplesAsWrittenMisaligned | parse_memtier_results.py:127-132 | as written, a row with an unparsable power leaves its utilisation behind, so the lists drift apart |
| Powerstat.PairedSamplesAligned | parse_memtier_results.py:125-132 | corrected: the i-th utilisation and the i-th power come from the same row |
| Powerstat.PowerSamples | parse_memtier_results.py:125-132 | the corrected sample loop yields the paired samples, two lists of equal length |
| Powerstat.SamplesAsWrittenPowers | parse_memtier_results.py:127-132 | the powers are the same as written and corrected: a power is kept only when its utilisation parsed too |
| Powerstat.SamplesAgree | parse_memtier_results.py:127-132 | without a row whose utilisation parses and whose power does not, the loop as written gives the paired samples |
| Powerstat.MemtierPowerSamples | parse_memtier_results.py:116-134 | no result exactly when the report has under 25 lines or the loop as written keeps no power; else the paired samples of the window, whose powers are those of the loop as written |
| FileNames.BaseStart | data-intel.py:12 | the start of the last path component |
| FileNames.SplitExtRoot | data-intel.py:12 | `splitext(p)[0]` is p itself or p cut before its last `.` in the last component |
| FileNames.SplitExtRootIff | data-intel.py:12 | `splitext` cuts something off exactly when the last `.` is in the last component and a character other than `.` precedes it there |
| FileNames.SplitExtRootOf | data-intel.py:12 | `splitext` strips exactly a one-dot extension from a name that does not end in `/` or `.` |
| FileNames.ReplaceInLastComponent | data-intel.py:13 | `replace` touches only the pattern in the last component when the directory lacks it |
| FileNames.LatPathOfLog | data-intel.py:12-13 | the `.lat` path of `<dir>mutilate_master_qps_<rate>.log` is `<dir>mutilate_lat_qps_<rate>.lat` |
| FileNames.RateField | data-intel.py:104 | the text after the last `_` and before the next `.` holds neither character |
| FileNames.SplitCharLast | data-intel.py:104 | the last part of `split(c)` is the text after the last `c` |
| FileNames.SplitCharFirst | data-intel.py:104 | the first part of `split(c)` is the text before the first `c` |
| FileNames.RateFieldOf | data-intel.py:104 | the rate field of `<prefix>_<field>.<ext>` is `<field>` |
| FileNames.RateOfName | data-intel.py:104 | a name built from a prefix, a rate and an extension gives that rate back |
| FileNames.RateOfBuiltNames | data-intel.py:113-114 | the mutilate and powerstat names built for a rate both give that rate back |
| FileNames.IntStringPlain | data-intel.py:113-114 | the decimal form of a rate holds no `_` and no `.` |
| FileNames.MachineNameOf | data-intel.py:136 | the machine name is the third `_` field of the first path component |
| DataIntel.FilterMapSpec | data-intel.py:112-121 | a filtered list holds exactly the values of the accepted elements |
| DataIntel.SplitReadNine | data-intel.py:23 | `re.split(r'\s+', "read 9")` is `["read", "9"]` |
| DataIntel.LineStepAsWritten | data-intel.py:22-34 | one pass of the loop body as written fails exactly when the line's QPS figure matches and does not convert |
| DataIntel.PartialReadOverwrites | data-intel.py:22-29 | as written, a partial `read` line sets the average from its token 1, skips the QPS check and keeps the QPS |
| DataIntel.ReadLineAsWrittenMixes | data-intel.py:22-29 | as written, `read 9` overwrites the average and keeps the earlier percentiles |
| DataIntel.ReadLineKeepsLatencies | data-intel.py:22-29 | corrected, `read 9` leaves all three latencies unchanged |
| DataIntel.ReadLineAllOrNothing | data-intel.py:22-29 | corrected: a `read` line sets all three latencies from tokens 1, 6 and 8, or none and skips the QPS check |
| DataIntel.NumRunEnd | data-intel.py:32 | the greedy `[\d.]+` run: only digits and dots, and the next character is neither |
| DataIntel.Group | data-intel.py:32 | the captured group is a non-empty run of digits and dots |
| DataIntel.SearchFrom | data-intel.py:32 | `re.search` finds the leftmost match, or reports that there is none |
| DataIntel.QpsSearchOf | data-intel.py:30-34 | the figure after `Total QPS = ` is read back whole |
| DataIntel.NumRunEndOf | data-intel.py:32 | the run ends exactly where a run of digits and dots does |
| DataIntel.LogFromSpec | data-intel.py:21-34 | corrected: the log loop fails iff a QPS figure does not convert; else the latencies come from the last good `read` line and the QPS from the last converted figure |
| DataIntel.LineStepSpec | data-intel.py:21-34 | corrected: one line fails iff its QPS figure does not convert; otherwise it takes its good `read` latencies and its converted QPS |
| DataIntel.ReadLine | data-intel.py:22-34 | one corrected loop pass is the specified line step |
| DataIntel.CheckQps | data-intel.py:30-34 | a matched figure that does not convert raises ValueError; otherwise it sets the total QPS |
| DataIntel.ReadLog | data-intel.py:21-34 | the corrected log loop equals its specification, stopping at the first ValueError |
| DataIntel.ReadSamples | data-intel.py:37-52 | the samples are the second fields of the non-blank `.lat` lines that convert, in order |
| DataIntel.ParseMutilateFile | data-intel.py:8-62 | the method computes `parse_mutilate_file`'s result with the corrected `read` step, including FileNotFoundError and ValueError |
| DataIntel.MutilateOkIff | data-intel.py:15-62 | corrected `read` step: success iff the log exists, no figure fails, some QPS converts, and latencies come from samples or a good `read` line; QPS is the last figure |
| DataIntel.LogFromAsWritten | data-intel.py:21-34 | the log loop as written fails exactly when some line's QPS figure matches and does not convert |
| DataIntel.MutilateAsWritten | data-intel.py:8-62 | `parse_mutilate_file` as written: FileNotFoundError for a missing log, and success only when no QPS figure fails to convert |
| DataIntel.LineStepAgrees | data-intel.py:22-34 | on a line that is not a partial `read` line, one pass as written is the corrected pass |
| DataIntel.LogFromAgrees | data-intel.py:21-34 | on a log without partial `read` lines, the loop as written is the corrected loop |
| DataIntel.MutilateAgrees | data-intel.py:8-62 | on such a log, `parse_mutilate_file` as written and corrected give the same result, error or figures |
| DataIntel.PowerOf | data-intel.py:64-91 | `parse_powerstat_file`: FileNotFoundError exactly when the report is missing; otherwise the window from line 21, then the 5th and 13th columns, then the rows where both convert, as two equal-length lists handed to the statistics (the mean power, its deviation and 100 minus the mean utilisation). There is no 25-line guard, unlike parse_memtier_results.py:116 |
| DataIntel.Select | data-intel.py:96-100 | a name is selected iff it is in the directory and passes the filter |
| DataIntel.RatesOfSpec | data-intel.py:103-108 | a ValueError iff some selected name has no integer rate, else one rate per name in order |
| DataIntel.ExtractRates | data-intel.py:103-108 | the rate loop equals its specification |
| DataIntel.RowsForRates | data-intel.py:112-121 | a row per rate whose two files parse, in the order of the rates |
| DataIntel.DirectoryRows | data-intel.py:96-121 | one directory's rows equal their specification |
| DataIntel.CollectLogs | data-intel.py:93-122 | the walk concatenates the directories' rows; the first bad rate aborts it |
| DataIntel.RowForKeepsRate | data-intel.py:118 | a row carries the rate it was made for |
| DataIntel.RowsKeepRates | data-intel.py:112-121 | rows made from ascending rates stay ascending and draw their rates from the list |
| DataIntel.DirRowsOrdered | data-intel.py:109-121 | a directory's rows have strictly ascending rates, each read from a mutilate log name in it |
| DataIntel.RateHasLog | data-intel.py:103-108 | every rate read comes from a mutilate log name of the directory |
| DataIntel.DirRowsComplete | data-intel.py:112-121 | every mutilate log whose two files parse gets its row |
| DataIntel.InsertOrdered | data-intel.py:137 | inserting into rows ordered by rate keeps them ordered |
| DataIntel.InsertPermutes | data-intel.py:137 | inserting adds exactly that row |
| DataIntel.SortByRate | data-intel.py:137 | the rows ordered by rate, a permutation of the input |
| DataIntel.Aggregate | data-intel.py:135-137 | the output rows are a rate-ordered permutation of the collected rows; no output when the walk fails |
| RedisRunner.ShardRate | redis_runner.py:100 | `qps_shard` is the ceiling of qps/20: `r*20 >= qps` and `(r-1)*20 < qps` |
| RedisRunner.PerConn | redis_runner.py:101-102 | `per_conn` is the ceiling of `qps_shard/100` |
| RedisRunner.EnforcedRateCoversTarget | redis_runner.py:100-102 | all connections together are limited to at least qps, and to less than qps + 2020 |
| RedisRunner.Port | redis_runner.py:74 | a shard's port is at least 7000 |
| RedisRunner.PortsDistinct | redis_runner.py:99 | the twenty shards get twenty distinct ports in [7000, 7020) |
| RedisRunner.Host | redis_runner.py:156 | every shard's host is one of the three clients |
| RedisRunner.HostRoundRobin | redis_runner.py:171 | hosts are dealt round-robin: period three, neighbours differ |
| RedisRunner.CoreSlices | redis_runner.py:41 | twenty slices; slices i and i+10 are both `2i-2i+1` for i below 10 |
| RedisRunner.SliceOfShard | redis_runner.py:41 | shard i is pinned to slice `2k-2k+1` with k = i mod 10 |
| RedisRunner.SliceInjective | redis_runner.py:41 | different slice numbers name different core pairs |
| RedisRunner.SharedCores | redis_runner.py:41 | two shards get the same cores exactly when their numbers agree mod 10 |
| RedisRunner.TenApart | redis_runner.py:41 | two shards sharing cores are ten apart, so not three apart |
| RedisRunner.NoSharedCoresOnHost | redis_runner.py:90 | two shards driven from one host are never pinned to the same cores |
| RedisRunner.KeysPerShard | redis_runner.py:92 | `MEMTIER_KEY_MAX // REDIS_SHARDS`: the shards' key ranges fit within the key maximum |
| RedisRunner.KeyPrefixInjective | redis_runner.py:157 | different shards use different key prefixes |
| RedisRunner.Plan | redis_runner.py:170-173 | one run per shard, each with its own host, port, cores, prefix, key range and rate limit |
| RedisRunner.PlanSeparatesShards | redis_runner.py:98-112 | runs of different shards use different ports and prefixes, share one rate limit, and cover the target rate together |
| RedisRunner.Upper | redis_runner.py:56 | `upper()` upper-cases each ASCII letter and keeps the length |
| RedisRunner.ProfileParams | redis_runner.py:55-71 | the result is always either the USR or the ETC parameters |
| RedisRunner.ProfileParamsUsr | redis_runner.py:56 | USR exactly for `usr` in any mix of ASCII cases, ETC for every other name |
| RedisRunner.PreloadFlagAgrees | redis_runner.py:158 | the preload's `and`/`or` data-size flag equals the run's conditional flag for every profile |
| RedisRunner.ProfileFlags | redis_runner.py:111-114 | USR gives `--data-size=2` and no zipf flag; ETC gives the size list and `--key-zipf-exp=1.2` |

## Left out

- Reading and writing files is left out: `open`, `readlines`, `glob`, `os.walk`, `Path.exists` and the CSV writers. Files are given as their lines through a parameter. A directory walk is the list of `(root, files)` pairs it yields. The glob order of `qps_*` directories and client logs is the order of the given lists.
- SSH, scp and `subprocess` are left out, along with `time.sleep` pacing, the thread pool and the shell command strings in redis_runner.py. Those are transport and concurrency. The model keeps only the values placed in those commands.
- The floating-point statistics are parameters: `mean_from_counts`, the power mean and standard deviation of parse_memtier_results.py, numpy's mean and percentiles for `.lat` samples, and pandas' mean, standard deviation and ±10%-of-mean power filter in data-intel.py. Real arithmetic stands in for floating point throughout.
- Number conversion is a parameter. `float` and `int` parsing, including Python's accepted spellings and pandas' `to_numeric`, is not modelled.
- HdrHistogram.ParseHdr: `num` yields only finite reals, so the infinite and NaN figures `float` accepts are not modelled. `int(float('inf'))` at parse_memtier_results.py:75 raises OverflowError, which the `except ValueError` there does not catch, so such a count token ends `parse_hdr_txt` with an uncaught exception. `int(float('nan'))` raises ValueError and ends the loop.
- Text and line handling is simplified:
  - Unicode digits are not recognised.
  - `content.strip().splitlines()` and the trailing newlines of `readlines` are folded into the given lines.
- RedisRunner.Upper: `str.upper` is modelled on ASCII letters only. Non-ASCII characters that Python upper-cases to `U`, `S` or `R` are not covered.
- MemtierResults.AggregateGroup: the row omits the average latency (`mean_from_counts` is a floating-point statistic) and the ×1000 output scaling of lines 196-199.
- Powerstat.MemtierPowerSamples: returns the corrected, paired samples. As written, a row whose utilisation converts and whose power does not still adds its utilisation, so `vals_util` and its mean can differ. The result's powers and its `None` case are exactly those of the loop as written (SamplesAsWrittenPowers), and the utilisations agree whenever no row has that shape (SamplesAgree).
- DataIntel.ReadLineAllOrNothing: states the corrected `read` step, which sets the three latencies together or not at all. As written (data-intel.py:25-27), a `read` line whose average converts but whose token 6 or 8 is missing or does not convert (a partial `read` line) overwrites the average first. LineStepAgrees shows the two steps agree on every other line.
- DataIntel.LineStepSpec: specifies the corrected step, so it does not cover the average a partial `read` line leaves behind as written.
- DataIntel.LogFromSpec: specifies the corrected loop. As written, a partial `read` line after a whole one replaces the average of the last whole line. LogFromAgrees shows the loops agree on every log without a partial `read` line.
- DataIntel.ReadLine: runs the corrected step, not the partial overwrite of data-intel.py:25-27.
- DataIntel.ReadLog: runs the corrected loop, not the partial overwrite of data-intel.py:25-27.
- DataIntel.ParseMutilateFile: computes the result with the corrected `read` step. For the log `read 1 2 3 4 5 6 7 8`, `read 9`, `Total QPS = 5` without a `.lat` file, the source returns average 9 and the model returns average 1. MutilateAsWritten runs the loop as written, and MutilateAgrees proves both agree on every log without a partial `read` line. The collected and sorted rows (DataIntel.RowsForRates, DataIntel.DirectoryRows, DataIntel.CollectLogs, DataIntel.Aggregate) are built on this parse and inherit its corrected `read` step.
- DataIntel.MutilateOkIff: characterises the corrected parse. Its latencies are those of the last whole `read` line, where the source can take the average from a later partial one.
- The join of power figures onto memtier rows (parse_memtier_results.py:210-224) is left out. Powerstat.MemtierPowerSamples models the report's samples. The dictionary join and the swallowed exceptions around them are not modelled.
- DataIntel.SortByRate: stability of `list.sort` is not proved. The insertion sort places each earlier row before later rows of the same rate, as a stable sort does.
- The error messages of ValueError are placeholders, not the exact text.
- graph.py and set_cpu_freq.py (plotting and CPU frequency control) are not part of this model.

## Findings

| source | as written | input that shows it | evidently intended | confidence | as-written member | corrected member |
|---|---|---|---|---|---|---|
| data-intel.py:24-29 | The three latencies are assigned one by one inside the `try`, so an IndexError or ValueError on token 6 or 8 is raised after the average has been overwritten. | after a `read` line that set 1.0, 2.0 and 3.0, the line `read 9` | A `read` line that cannot be read whole leaves all three latencies unchanged. | medium; not executed | DataIntel.ReadLineAsWrittenMixes | DataIntel.ReadLineKeepsLatencies |
| parse_memtier_results.py:127-132 | The utilisation is appended before the power is converted, so a row whose power does not convert leaves its utilisation in `vals_util`. | rows `("1", "bad")` and `("2", "3")` give utilisations `[1, 2]` and powers `[3]` | A row counts for both lists or for neither, as the `dropna` of data-intel.py:81 does. | medium; not executed | Powerstat.SamplesAsWrittenMisaligned | Powerstat.PowerSamples |
