/** The HTMLToPNGConverter window: two editor buffers, the document last
    shown in the preview, and the export size held by two spin boxes. Disk
    access is modelled by a map from path to file text (the files that can
    be read) and a set of paths that can be written. */
module Converter {
  import Composer
  import Paths

  const MinWidth: int := 100
  const MaxWidth: int := 3840
  const MinHeight: int := 100
  const MaxHeight: int := 2160
  const DefaultWidth: int := 1024
  const DefaultHeight: int := 768

  datatype Option<T> = None | Some(value: T)

  /** Texts of the readable files, by path. */
  type Disk = map<string, string>

  /** The contents of the HTML and the CSS editor. */
  datatype Buffers = Buffers(html: string, css: string)

  /** What saveToPNG hands on: the target file, the document the web view
      shows, and the viewport size. */
  datatype ExportRequest = ExportRequest(path: string, document: string, width: int, height: int)

  datatype ExportOutcome =
    | EmptyContentWarning      // "No HTML content to convert!"
    | Cancelled                // the save dialog returned no path
    | Requested(request: ExportRequest)

  /** A path the dialogs can return: empty (cancelled) or absolute. */
  predicate IsDialogPath(p: string)
  {
    p == [] || Paths.IsAbsolute(p)
  }

  /** A QSpinBox value stays inside the range given to setRange. */
  function Clamp(v: int, lo: int, hi: int): (r: int)
    requires lo <= hi
    ensures lo <= r <= hi
    ensures lo <= v <= hi ==> r == v
    ensures v < lo ==> r == lo
    ensures hi < v ==> r == hi
  {
    if v < lo then lo else if hi < v then hi else v
  }

  /** openFile: the buffers after opening `path`, or None when nothing is
      loaded (dialog cancelled or file unreadable). The HTML buffer is
      replaced wholesale; the CSS buffer only when the sibling file exists. */
  function Opened(disk: Disk, path: string, current: Buffers): (r: Option<Buffers>)
    requires IsDialogPath(path)
    ensures r.None? <==> path == [] || path !in disk
    ensures r.Some? ==> r.value.html == disk[path]
    ensures r.Some? && Paths.SiblingCssPath(path) in disk ==> r.value.css == disk[Paths.SiblingCssPath(path)]
    ensures r.Some? && Paths.SiblingCssPath(path) !in disk ==> r.value.css == current.css
  {
    if path == [] || path !in disk then None
    else
      var sibling := Paths.SiblingCssPath(path);
      Some(Buffers(disk[path], if sibling in disk then disk[sibling] else current.css))
  }

  /** saveHTML: the disk after saving the buffers under `path`. The CSS is
      written to the sibling only when it is non-empty and the HTML file
      could be written. */
  function Saved(disk: Disk, writable: set<string>, path: string, b: Buffers): (after: Disk)
    requires IsDialogPath(path)
    ensures path == [] || path !in writable ==> after == disk
    ensures path != [] && path in writable ==> path in after
    ensures path != [] && path in writable && Paths.SiblingCssPath(path) != path ==> after[path] == b.html
    ensures path != [] && path in writable && b.css != [] && Paths.SiblingCssPath(path) in writable
            ==> Paths.SiblingCssPath(path) in after && after[Paths.SiblingCssPath(path)] == b.css
    ensures forall k :: k in disk && k != path && (path == [] || k != Paths.SiblingCssPath(path))
              ==> k in after && after[k] == disk[k]
    ensures path != [] ==> after.Keys <= disk.Keys + {path, Paths.SiblingCssPath(path)}
    ensures b.css == [] ==> after.Keys <= disk.Keys + {path}
  {
    if path == [] || path !in writable then disk
    else
      var written := disk[path := b.html];
      var sibling := Paths.SiblingCssPath(path);
      if b.css == [] || sibling !in writable then written else written[sibling := b.css]
  }

  /** A pair saved together is found again on open: the HTML file and its
      sibling style sheet are named alike by both operations. The file must
      not be named `<base>.css` itself, or the CSS overwrites it. */
  lemma SaveThenOpen(disk: Disk, writable: set<string>, path: string, b: Buffers, current: Buffers)
    requires Paths.IsAbsolute(path)
    requires path in writable && Paths.SiblingCssPath(path) in writable
    requires b.css != []
    requires Paths.FileName(path) != Paths.BaseName(path) + ".css"
    ensures Opened(Saved(disk, writable, path, b), path, current) == Some(b)
  {
    Paths.SiblingIsSelfIff(path);
  }

  /** Saving with an empty CSS buffer leaves an older sibling style sheet in
      place, and opening the file again loads that stale CSS. */
  lemma SaveEmptyCssThenOpen(disk: Disk, writable: set<string>, path: string, html: string, current: Buffers)
    requires Paths.IsAbsolute(path) && path in writable
    requires Paths.SiblingCssPath(path) in disk
    requires Paths.FileName(path) != Paths.BaseName(path) + ".css"
    ensures Opened(Saved(disk, writable, path, Buffers(html, [])), path, current)
            == Some(Buffers(html, disk[Paths.SiblingCssPath(path)]))
  {
    Paths.SiblingIsSelfIff(path);
  }

  /** Saving under a name like `/dir/style.css` makes the file its own
      sibling: the CSS overwrites the HTML just written, and opening the file
      puts the CSS text into both buffers. */
  lemma SaveOverOwnSibling(disk: Disk, writable: set<string>, path: string, b: Buffers, current: Buffers)
    requires Paths.IsAbsolute(path) && path in writable
    requires b.css != []
    requires Paths.FileName(path) == Paths.BaseName(path) + ".css" && path != "/" + Paths.FileName(path)
    ensures Saved(disk, writable, path, b)[path] == b.css
    ensures Opened(Saved(disk, writable, path, b), path, current) == Some(Buffers(b.css, b.css))
  {
    Paths.SiblingIsSelfIff(path);
  }

  class HtmlToPngConverter {
    var html: string
    var css: string
    var preview: string  // the document last handed to the web view
    var width: int
    var height: int

    /** The spin boxes keep the export size inside their ranges. */
    ghost predicate Valid()
      reads this
    {
      MinWidth <= width <= MaxWidth && MinHeight <= height <= MaxHeight
    }

    /** setupUi: empty editors and preview, export size 1024 x 768. */
    constructor ()
      ensures Valid()
      ensures html == [] && css == [] && preview == []
      ensures width == DefaultWidth && height == DefaultHeight
    {
      html, css, preview := [], [], [];
      width, height := DefaultWidth, DefaultHeight;
    }

    /** The user types in the HTML editor. */
    method EditHtml(text: string)
      requires Valid()
      modifies this`html
      ensures Valid() && html == text
    {
      html := text;
    }

    /** The user types in the CSS editor. */
    method EditCss(text: string)
      requires Valid()
      modifies this`css
      ensures Valid() && css == text
    {
      css := text;
    }

    /** The user sets the width spin box; the box keeps it in range. */
    method SetWidth(v: int)
      requires Valid()
      modifies this`width
      ensures Valid()
      ensures width == Clamp(v, MinWidth, MaxWidth)
      ensures MinWidth <= v <= MaxWidth ==> width == v
    {
      width := Clamp(v, MinWidth, MaxWidth);
    }

    /** The user sets the height spin box; the box keeps it in range. */
    method SetHeight(v: int)
      requires Valid()
      modifies this`height
      ensures Valid()
      ensures height == Clamp(v, MinHeight, MaxHeight)
      ensures MinHeight <= v <= MaxHeight ==> height == v
    {
      height := Clamp(v, MinHeight, MaxHeight);
    }

    /** renderPreview: the web view shows the composed document. */
    method RenderPreview()
      requires Valid()
      modifies this`preview
      ensures Valid()
      ensures preview == Composer.Compose(html, css)
      ensures css == [] ==> preview == html
    {
      preview := Composer.Compose(html, css);
    }

    /** openFile with the path the dialog returned. */
    method OpenFile(disk: Disk, path: string)
      requires Valid() && IsDialogPath(path)
      modifies this`html, this`css, this`preview
      ensures Valid()
      ensures Opened(disk, path, old(Buffers(html, css))).None? ==> unchanged(this)
      ensures Opened(disk, path, old(Buffers(html, css))).Some? ==>
                && Some(Buffers(html, css)) == Opened(disk, path, old(Buffers(html, css)))
                && html == disk[path]
                && preview == Composer.Compose(html, css)
      ensures path != [] && path in disk && Paths.SiblingCssPath(path) !in disk ==> css == old(css)
    {
      ghost var loaded := Opened(disk, path, Buffers(html, css));
      if path != [] && path in disk {
        html := disk[path];
        var sibling := Paths.SiblingCssPath(path);
        if sibling in disk {
          css := disk[sibling];
        }
        assert loaded == Some(Buffers(html, css));
        RenderPreview();
      }
    }

    /** saveHTML with the path the dialog returned: writes the HTML file and,
        when the CSS is non-empty, its sibling. The window is unchanged. */
    method SaveHtml(disk: Disk, writable: set<string>, path: string) returns (after: Disk)
      requires IsDialogPath(path)
      ensures after == Saved(disk, writable, path, Buffers(html, css))
      ensures path != [] && path in writable ==> path in after
      ensures forall k :: k in disk && k != path && (path == [] || k != Paths.SiblingCssPath(path))
                ==> k in after && after[k] == disk[k]
      ensures css == [] ==> after.Keys <= disk.Keys + {path}
    {
      after := disk;
      if path != [] && path in writable {
        after := after[path := html];
        if css != [] {
          var sibling := Paths.SiblingCssPath(path);
          if sibling in writable {
            after := after[sibling := css];
          }
        }
      }
    }

    /** saveToPNG with the path the save dialog would return. An empty HTML
        buffer is refused before any dialog; otherwise the request carries the
        document last shown in the preview (saveToPNG does not re-render) and
        the spin-box size, which lies in range. */
    method SaveToPng(path: string) returns (outcome: ExportOutcome)
      requires Valid()
      ensures outcome == EmptyContentWarning <==> html == []
      ensures outcome.Requested? <==> html != [] && path != []
      ensures outcome.Requested? ==> outcome.request == ExportRequest(path, preview, width, height)
      ensures outcome.Requested? ==>
                && MinWidth <= outcome.request.width <= MaxWidth
                && MinHeight <= outcome.request.height <= MaxHeight
    {
      if html == [] {
        return EmptyContentWarning;
      }
      if path == [] {
        return Cancelled;
      }
      outcome := Requested(ExportRequest(path, preview, width, height));
    }
  }
}
