# spotify-liked-artists, modelled in Dafny

`spotify-liked-artists` is a small Go command-line program. It loads
credentials from a `KEY=VALUE` secrets file into the process environment,
fetches the user's saved tracks from the Spotify Web API, and prints the
distinct artist names of those tracks as a sorted JSON array.

This project models the two pieces of logic in that program, and proves what
they promise:

- **The artist extractor `getArtists`.** It collects every artist name of every
  song's track into a `map[string]bool` used as a set. It copies the map's keys
  into a slice in the map's unspecified iteration order, then sorts the slice
  with `sort.Strings`.
  - `LikedArtists.GatherNames`, `LikedArtists.ListKeys` and
    `StringSort.SortStrings` are the three phases, written as imperative
    methods.
    - `ListKeys` picks any remaining key at each step (`:|`), so the proof
      covers every iteration order.
    - `SortStrings` is an in-place insertion sort on an `array<string>`.
  - `LikedArtists.GetArtists` composes the phases. Its result is proved to be:
    - ascending;
    - free of repetitions;
    - exactly the names that occur;
    - no longer than the number of artist entries;
    - equal to the reference definition `ArtistList(songs)`, the ascending
      sequence of the name set.

  From that follows determinism: the result depends only on which songs occur
  (`ArtistListIgnoresSongOrder`).
- **The secrets-file loop of `loadEnvFile`.** Each line is cut with
  `strings.Split(line, "=")`. Field `[0]` is passed to `os.Setenv` as the name
  and field `[1]` as the value.
  - `Fields.Split` models `strings.Split` the way Go computes it: find the first
    separator, cut, repeat. `Fields.Join` is its inverse.
  - `EnvFile.ParseLine` is the split and the two indexings.
  - `EnvFile.Environment` holds the environment as a `map<string, string>`.
    - Its `Setenv` applies the validity rules of `os.Setenv` on Unix.
    - Its `LoadLines` runs the loop over the file's lines.
  - A line without `=` makes `env_var[1]` go out of range. The model turns this
    into the outcome `IndexOutOfRange(i)`, where `i` is the line's index.

Strings are `seq<char>`. Go orders strings by their UTF-8 bytes. For valid
UTF-8, that order is the same as the code-point order of `StringOrder.Below`.

Two behaviours of the loader differ from a plain reading of "a file of
`KEY=VALUE` lines". The model follows the code in both:

- A line is not split at its first `=` only. The code splits at every `=` and
  keeps only field `[1]`, so the value ends at the second `=`: `TOKEN=abc==`
  sets `TOKEN` to `abc` (`PaddedValueExample`).
- An empty line is not skipped. It has no `=`, so it goes out of range like any
  other such line.

The `Artist` record keeps all its fields; `Type` is called `kind` because
`type` is a Dafny keyword.

## Model

| member | source | states |
|---|---|---|
| `StringOrder.BelowTotal` | spotify-liked-artists.go:159 | any two strings are comparable in the order `sort.Strings` uses |
| `StringOrder.BelowTransitive` | spotify-liked-artists.go:159 | the string order is transitive |
| `StringOrder.BelowAntisymmetric` | spotify-liked-artists.go:159 | two strings each at or before the other are equal |
| `StringOrder.PrefixIsBelow` | spotify-liked-artists.go:159 | a prefix (in particular the empty string) sorts at or before the string it starts |
| `StringOrder.SortedPairwise` | spotify-liked-artists.go:159 | in a sorted slice every earlier element is at or before every later one |
| `StringOrder.DistinctCounts` | spotify-liked-artists.go:155-157 | a sequence has no repetitions iff each element occurs at most once in its multiset |
| `StringOrder.DistinctPermutation` | spotify-liked-artists.go:155-159 | reordering a list without repetitions (as sorting does) keeps it without repetitions |
| `StringOrder.SortedDistinctUnique` | spotify-liked-artists.go:155-159 | two ascending lists without repetitions holding the same strings are equal, so the sorted result does not depend on the key order |
| `StringOrder.LeastExists` | spotify-liked-artists.go:159 | every non-empty set of names has a least element |
| `StringOrder.Least` | spotify-liked-artists.go:159 | the chosen name belongs to the set and is at or before all its names |
| `StringOrder.SortedSeqOf` | spotify-liked-artists.go:155-161 | the reference dedup-and-sort: ascending, no repetitions, exactly the set's strings, length equal to the set's size |
| `StringSort.SortStrings` | spotify-liked-artists.go:159 | `sort.Strings` in place: the array ends ascending and is a permutation of what it held |
| `StringSort.Insert` | spotify-liked-artists.go:159 | one insertion step extends the ascending prefix by one element, permutes the array and leaves the elements after it alone |
| `LikedArtists.ArtistNamesMembership` | spotify-liked-artists.go:150-152 | a name is gathered from a track iff one of its artists carries it |
| `LikedArtists.NameSetMembership` | spotify-liked-artists.go:147-153 | a name is in the map iff it is the `Name` of some artist of some song's track |
| `LikedArtists.NameSetBound` | spotify-liked-artists.go:147-153 | the map has at most as many keys as there are artist entries |
| `LikedArtists.GatherNames` | spotify-liked-artists.go:145-153 | the nested loop leaves in the map exactly the names of all artists of all songs |
| `LikedArtists.ListKeys` | spotify-liked-artists.go:155-157 | whatever order the keys are visited in, the slice holds every key exactly once |
| `LikedArtists.GetArtists` | spotify-liked-artists.go:142-162 | result ascending, no repetitions, holds exactly the names that occur, length is the number of distinct names and at most the artist count, and equals `ArtistList(songs)` |
| `LikedArtists.ArtistListIgnoresSongOrder` | spotify-liked-artists.go:155-159 | permuting or repeating songs does not change the result, despite the unordered map iteration |
| `LikedArtists.NoArtistsGiveEmptyList` | spotify-liked-artists.go:144-153 | no songs, or only tracks without artists, give the empty list |
| `LikedArtists.EmptyNameComesFirst` | spotify-liked-artists.go:150-159 | an empty artist name is kept and sorts first |
| `LikedArtists.NameSetAppend` | spotify-liked-artists.go:147-153 | one more song adds exactly its track's artist names |
| `LikedArtists.SortedPair` | spotify-liked-artists.go:159 | two different names sort lower one first |
| `LikedArtists.RepeatedArtistListedOnce` | spotify-liked-artists.go:142-162 | songs by B, A, A (A before B) give [A, B] |
| `LikedArtists.BjorkAirAirExample` | spotify-liked-artists.go:142-162 | songs by "Bjork", "Air", "Air" give ["Air", "Bjork"] |
| `Fields.IndexOf` | spotify-liked-artists.go:177 | the position found holds the separator and none comes before it |
| `Fields.Split` | spotify-liked-artists.go:177 | `strings.Split` gives at least one piece and no piece holds the separator |
| `Fields.SplitCount` | spotify-liked-artists.go:177 | there is one more piece than there are separators |
| `Fields.FirstField` | spotify-liked-artists.go:177-178 | piece `[0]` is the text before the first `=`, or the whole line |
| `Fields.SecondField` | spotify-liked-artists.go:177-178 | piece `[1]` exists iff the line has `=`, and is the text after the first `=` up to the second one or the end |
| `Fields.FieldAtUnique` | spotify-liked-artists.go:177-178 | the text from a position to the next separator is unique, so the two properties above determine key and value |
| `Fields.JoinSplit` | spotify-liked-artists.go:177 | joining the pieces with the separator gives back the line |
| `Fields.SplitAfterField` | spotify-liked-artists.go:177 | a separator-free text followed by the separator is split off as the first piece |
| `Fields.SplitJoin` | spotify-liked-artists.go:177 | splitting joined separator-free pieces gives back the pieces |
| `EnvFile.ParseLine` | spotify-liked-artists.go:177-178 | index error iff the line has no `=`; otherwise the key is the text before the first `=` and the value the text between the first and the second `=` (or to the end) |
| `EnvFile.FirstMalformed` | spotify-liked-artists.go:175-178 | the index of the first line without `=` (or the line count): all lines before it have `=` |
| `EnvFile.LastWriteWins` | spotify-liked-artists.go:175-179 | after the loop, a variable holds the value of the last line that set it |
| `EnvFile.UnsetKeysUnchanged` | spotify-liked-artists.go:175-179 | a variable that no line sets keeps its old value or stays unset |
| `EnvFile.ParseSimpleLine` | spotify-liked-artists.go:177-178 | a line `KEY=VALUE` with no further `=` reads as exactly that key and value |
| `EnvFile.ParseLineDropsAfterSecondSeparator` | spotify-liked-artists.go:177-178 | in `KEY=VALUE=REST` the value is VALUE and REST is lost |
| `EnvFile.SingleLineFile` | spotify-liked-artists.go:175-179 | a one-line file `KEY=VALUE` sets KEY to VALUE and changes nothing else |
| `EnvFile.TokenLineExample` | spotify-liked-artists.go:175-179 | the file `TOKEN=abc123` sets `TOKEN` to `abc123` |
| `EnvFile.PaddedValueExample` | spotify-liked-artists.go:177-178 | the line `TOKEN=abc==` sets `TOKEN` to `abc` |
| `EnvFile.Environment.Setenv` | spotify-liked-artists.go:178 | `os.Setenv` succeeds iff the name is non-empty without `=` or NUL and the value has no NUL; only then the variable is set, otherwise nothing changes |
| `EnvFile.Environment.LoadLines` | spotify-liked-artists.go:175-179 | the loop applies the lines in order; it stops with the index of the first line without `=`, after the lines before it have been applied |

## Left out

- `getToken` and `getTracks` are not modelled. They are HTTP requests and response-body handling against fixed URLs, which is network I/O.
- `main` is not modelled. It reads `TOKEN` with `os.Getenv`, prints JSON and calls `log.Fatal`: process output and exit.
- JSON decoding and `json.MarshalIndent` are not modelled. Songs arrive already decoded as `Song` values, and the result is a `seq<string>`.
- The `Token` and `Response` records are not modelled, because they are consumed only by the network code.
- `Track.Album` is dropped. It is an untyped JSON object that nothing reads.
- Opening the secrets file, `bufio.Scanner` and its error check are file I/O and are not modelled. The file arrives as a sequence of lines, so the scanner's line-length limit and its stripping of `\r` are not modelled either.
- Process termination is not modelled. An index-out-of-range panic is modelled as the outcome `IndexOutOfRange(i)`; what happens to the process afterwards is left out.
- The real process environment is a map held by `Environment`. `os.Setenv` is modelled with its Unix rules; the Windows rules are not modelled.
- Go distinguishes a nil slice from an empty one, but Dafny sequences have no nil. The result for no artists is the empty sequence, which marshals as `[]`.
- Strings are modelled as code points, not bytes. Invalid UTF-8 byte sequences, where Go's byte order and code-point order could differ, are not modelled.
- `StringSort.SortStrings` is an insertion sort, not Go's pattern-defeating quicksort. On a slice without repetitions any correct sort gives the same result (`SortedDistinctUnique`), so the extractor's result is unaffected.
