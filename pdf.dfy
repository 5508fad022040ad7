/**
  Documents as the PDF library presents them to the server: an ordered
  sequence of pages whose content is opaque, pages rendered to pixmaps,
  the named output files of a split, and the directory of files that is
  zipped into an archive.
*/
module Pdf {

  /** A page. An original page is known only by its identity; a page built
      by the compressor holds nothing but one rendered image. */
  datatype Page = Original(id: nat) | ImagePage(image: Raster)

  /** A page rendered to a pixmap at a percentage of its native resolution
      (100 is the library's default of 72 dpi). Pixels are not modelled. */
  datatype Raster = Raster(source: Page, scalePercent: nat)

  /** The pages of an opened PDF, 0-indexed. */
  type Document = seq<Page>

  /** One output file of a split: its file name and its pages. */
  datatype Part = Part(name: string, pages: Document)

  // ------------------------------------------------------------- concatenation

  /** The pages of several documents, one document after another. */
  function Concat(docs: seq<Document>): Document
    decreases |docs|
  {
    if |docs| == 0 then [] else docs[0] + Concat(docs[1..])
  }

  lemma ConcatCons(d: Document, docs: seq<Document>)
    ensures Concat([d] + docs) == d + Concat(docs)
  {
    assert ([d] + docs)[1..] == docs;
  }

  /** The number of pages of several documents together. */
  function TotalPages(docs: seq<Document>): nat
    decreases |docs|
  {
    if |docs| == 0 then 0 else |docs[0]| + TotalPages(docs[1..])
  }

  lemma {:induction false} ConcatAppend(docs: seq<Document>, d: Document)
    ensures Concat(docs + [d]) == Concat(docs) + d
    ensures TotalPages(docs + [d]) == TotalPages(docs) + |d|
    decreases |docs|
  {
    if |docs| > 0 {
      assert (docs + [d])[1..] == docs[1..] + [d];
      ConcatAppend(docs[1..], d);
    } else {
      assert docs + [d] == [d];
    }
  }

  /** The pages of each part, in order. */
  function PagesOf(parts: seq<Part>): (docs: seq<Document>)
    ensures |docs| == |parts|
    ensures forall j :: 0 <= j < |parts| ==> docs[j] == parts[j].pages
  {
    seq(|parts|, j requires 0 <= j < |parts| => parts[j].pages)
  }

  // ------------------------------------------------------------- directories

  /** The files of a directory after writing `files` into it in order: a
      later file of an existing name replaces the earlier one. */
  function Directory<T>(files: seq<(string, T)>): map<string, T>
    decreases |files|
  {
    if |files| == 0 then map[]
    else Directory(files[..|files| - 1])[files[|files| - 1].0 := files[|files| - 1].1]
  }

  /** The name of each file written, and nothing else, is in the directory. */
  lemma {:induction false} DirectoryNames<T>(files: seq<(string, T)>)
    ensures Directory(files).Keys == set j | 0 <= j < |files| :: files[j].0
    decreases |files|
  {
    if |files| > 0 {
      var init := files[..|files| - 1];
      DirectoryNames(init);
      var all := set j | 0 <= j < |files| :: files[j].0;
      var before := set j | 0 <= j < |init| :: init[j].0;
      assert all == before + {files[|files| - 1].0} by {
        forall x | x in all ensures x in before + {files[|files| - 1].0} {
          var j :| 0 <= j < |files| && files[j].0 == x;
          if j < |init| { assert init[j] == files[j]; }
        }
        forall x | x in before ensures x in all {
          var j :| 0 <= j < |init| && init[j].0 == x;
          assert files[j] == init[j];
        }
      }
    }
  }

  /** A file that no later file overwrites keeps its content in the directory. */
  lemma {:induction false} DirectoryLastWriteWins<T>(files: seq<(string, T)>, j: nat)
    requires j < |files|
    requires forall i :: j < i < |files| ==> files[i].0 != files[j].0
    ensures files[j].0 in Directory(files) && Directory(files)[files[j].0] == files[j].1
    decreases |files|
  {
    if j < |files| - 1 {
      var init := files[..|files| - 1];
      assert init[j] == files[j];
      forall i | j < i < |init| ensures init[i].0 != init[j].0 {
        assert init[i] == files[i];
      }
      DirectoryLastWriteWins(init, j);
    }
  }

  /** Files of pairwise distinct names give a directory of as many entries. */
  lemma {:induction false} DirectoryOfDistinctNames<T>(files: seq<(string, T)>)
    requires forall i, j :: 0 <= i < j < |files| ==> files[i].0 != files[j].0
    ensures |Directory(files)| == |files|
    ensures forall j :: 0 <= j < |files| ==> files[j].0 in Directory(files) && Directory(files)[files[j].0] == files[j].1
    decreases |files|
  {
    if |files| > 0 {
      var init := files[..|files| - 1];
      var last := files[|files| - 1];
      forall i, j | 0 <= i < j < |init| ensures init[i].0 != init[j].0 {
        assert init[i] == files[i] && init[j] == files[j];
      }
      DirectoryOfDistinctNames(init);
      DirectoryNames(init);
      forall i | 0 <= i < |init| ensures init[i].0 != last.0 {
        assert init[i] == files[i];
      }
      assert last.0 !in Directory(init);
      forall j | 0 <= j < |files| ensures files[j].0 in Directory(files) && Directory(files)[files[j].0] == files[j].1 {
        DirectoryLastWriteWins(files, j);
      }
    }
  }

  /** The files of a split, as (file name, pages) pairs in the order written. */
  function PartFiles(parts: seq<Part>): (files: seq<(string, Document)>)
    ensures |files| == |parts|
    ensures forall j :: 0 <= j < |parts| ==> files[j] == (parts[j].name, parts[j].pages)
  {
    seq(|parts|, j requires 0 <= j < |parts| => (parts[j].name, parts[j].pages))
  }

  /** The archive of a split: the directory its parts were written into. */
  function ArchiveOf(parts: seq<Part>): map<string, Document>
  {
    Directory(PartFiles(parts))
  }
}
