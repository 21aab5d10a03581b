/**
 * The fixed text of the gaiji report page (generate_gaiji_report.py): the
 * lines before and after the table rows, and the pieces each row's lines
 * are made of.
 */
module ReportText {

  // The document head.
  const DocType: string := "<!doctype html>"
  const HtmlOpen: string := "<html lang=\"ja\">"
  const HeadOpen: string := "<head>"
  const MetaCharset: string := "  <meta charset=\"utf-8\">"
  const MetaViewport: string := "  <meta name=\"viewport\" content=\"width=device-width, initial-scale=1\">"
  const PageTitle: string := "  <title>Jitsu Gaiji Report</title>"
  const StyleOpen: string := "  <style>"
  const StyleBody: string := "    body { font-family: system-ui, sans-serif; margin: 24px; }"
  const StyleTable: string := "    table { border-collapse: collapse; width: 100%; }"
  const StyleCells: string := "    th, td { border: 1px solid #ddd; padding: 8px; vertical-align: top; }"
  const StyleHeaderCells: string := "    th { background: #f3f3f3; text-align: left; }"
  const StyleImg: string := "    img { max-height: 48px; }"
  const StyleMono: string := "    .mono { font-family: ui-monospace, SFMono-Regular, Menlo, monospace; }"
  const StyleClose: string := "  </style>"
  const HeadClose: string := "</head>"
  const BodyOpen: string := "<body>"

  // The heading, around the row count.
  const HeadingOpen: string := "  <h1>Jitsu Gaiji Report ("
  const HeadingClose: string := " entries)</h1>"

  // The table head.
  const TableOpen: string := "  <table>"
  const TheadOpen: string := "    <thead>"
  const RowOpen: string := "      <tr>"
  const ThId: string := "        <th>ID</th>"
  const ThKeyword: string := "        <th>Keyword</th>"
  const ThHref: string := "        <th>Href</th>"
  const ThImage: string := "        <th>Image</th>"
  const ThGaijiChar: string := "        <th>Gaiji Char</th>"
  const RowClose: string := "      </tr>"
  const TheadClose: string := "    </thead>"
  const TbodyOpen: string := "    <tbody>"

  // The pieces of a row's cells.
  const CellMonoOpen: string := "        <td class=\"mono\">"
  const CellOpen: string := "        <td>"
  const CellClose: string := "</td>"
  const LinkCellOpen: string := "        <td class=\"mono\"><a href=\""
  const LinkTextOpen: string := "\">"
  const LinkCellClose: string := "</a></td>"
  const ImageCellOpen: string := "        <td><img src=\""
  const ImageCellClose: string := "\" alt=\"gaiji\"></td>"

  // The closing lines.
  const TbodyClose: string := "    </tbody>"
  const TableClose: string := "  </table>"
  const BodyClose: string := "</body>"
  const HtmlClose: string := "</html>"
}
