/** The coordinate mapper: image pixels (origin top-left, y grows downward) to PDF points
    (origin bottom-left, y grows upward). */
module Coords {

  /** A rectangle in PDF points; (x, y) is its lower-left corner. */
  datatype PdfRect = PdfRect(x: real, y: real, w: real, h: real)

  /** A rectangle in image pixels; (left, top) is its upper-left corner. */
  datatype PixelRect = PixelRect(left: real, top: real, w: real, h: real)

  /** `convert_ocr_to_pdf_coords`. A zero image dimension returns the pixel size at the origin
      instead of dividing by zero; otherwise both axes are scaled and y is inverted. */
  function ConvertOcrToPdfCoords(ocrX: real, ocrY: real, ocrW: real, ocrH: real,
                                 imgW: nat, imgH: nat, pdfW: real, pdfH: real): (r: PdfRect)
    ensures imgW == 0 || imgH == 0 ==> r == PdfRect(0.0, 0.0, ocrW, ocrH)
    ensures imgW != 0 && imgH != 0 ==>
      && r.x * (imgW as real) == ocrX * pdfW
      && r.w * (imgW as real) == ocrW * pdfW
      && r.h * (imgH as real) == ocrH * pdfH
      // the top edge on the page is the pixel top edge measured down from the page top
      && (r.y + r.h) * (imgH as real) == (imgH as real - ocrY) * pdfH
      // the bottom edge on the page is the pixel bottom edge measured down from the page top
      && r.y * (imgH as real) == (imgH as real - (ocrY + ocrH)) * pdfH
  {
    if imgW == 0 || imgH == 0 then PdfRect(0.0, 0.0, ocrW, ocrH)
    else
      var scaleX := pdfW / (imgW as real);
      var scaleY := pdfH / (imgH as real);
      PdfRect(ocrX * scaleX, pdfH - (ocrY + ocrH) * scaleY, ocrW * scaleX, ocrH * scaleY)
  }

  /** The inverse mapping, defined when neither the image nor the page is degenerate. */
  function PdfToOcrCoords(r: PdfRect, imgW: nat, imgH: nat, pdfW: real, pdfH: real): (p: PixelRect)
    requires imgW > 0 && imgH > 0 && pdfW > 0.0 && pdfH > 0.0
  {
    var ix := (imgW as real) / pdfW;
    var iy := (imgH as real) / pdfH;
    PixelRect(r.x * ix, (pdfH - (r.y + r.h)) * iy, r.w * ix, r.h * iy)
  }

  /** Mapping a pixel box to the page and back gives the pixel box again. */
  lemma PixelRoundTrip(p: PixelRect, imgW: nat, imgH: nat, pdfW: real, pdfH: real)
    requires imgW > 0 && imgH > 0 && pdfW > 0.0 && pdfH > 0.0
    ensures PdfToOcrCoords(ConvertOcrToPdfCoords(p.left, p.top, p.w, p.h, imgW, imgH, pdfW, pdfH),
                           imgW, imgH, pdfW, pdfH) == p
  {
  }

  /** Mapping a page box to pixels and back gives the page box again. */
  lemma PdfRoundTrip(r: PdfRect, imgW: nat, imgH: nat, pdfW: real, pdfH: real)
    requires imgW > 0 && imgH > 0 && pdfW > 0.0 && pdfH > 0.0
    ensures var p := PdfToOcrCoords(r, imgW, imgH, pdfW, pdfH);
            ConvertOcrToPdfCoords(p.left, p.top, p.w, p.h, imgW, imgH, pdfW, pdfH) == r
  {
  }

  /** Y inversion: on a non-degenerate page, a box lower down the image (larger pixel top)
      has its top edge lower on the page. */
  lemma LowerInImageIsLowerOnPage(x: real, top1: real, top2: real, w: real, h: real,
                                  imgW: nat, imgH: nat, pdfW: real, pdfH: real)
    requires imgW > 0 && imgH > 0 && pdfH > 0.0
    requires top1 < top2
    ensures var r1 := ConvertOcrToPdfCoords(x, top1, w, h, imgW, imgH, pdfW, pdfH);
            var r2 := ConvertOcrToPdfCoords(x, top2, w, h, imgW, imgH, pdfW, pdfH);
            r2.y + r2.h < r1.y + r1.h && r2.y < r1.y
  {
  }
}
